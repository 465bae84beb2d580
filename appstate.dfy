/** The application state provider: the session (`isLoggedIn`, `currentUser`)
    and the borrowed, purchased and catalog lists, hydrated from `localStorage`
    and written through to it on every change. */
module AppState {
  import opened Wrappers
  import opened Json
  import opened Storage
  import opened BookLists

  const AuthKey := "libraryIsLoggedIn"
  const UserKey := "libraryCurrentUser"
  const BorrowedKey := "libraryBorrowedBooks"
  const PurchasedKey := "libraryPurchasedBooks"
  const CatalogKey := "libraryEbookCatalog"


  function Loan(id: string, title: string, author: string, due: string): Json {
    JObj([("id", JStr(id)), ("title", JStr(title)), ("author", JStr(author)), ("due", JStr(due))])
  }

  function Ebook(id: string, title: string, author: string, format: string): Json {
    JObj([("id", JStr(id)), ("title", JStr(title)), ("author", JStr(author)), ("format", JStr(format))])
  }

  /** The borrowed list of a first visit. */
  const BorrowedSeed: seq<Json> := [
    Loan("bk-1", "The Picture of Dorian Gray", "Oscar Wilde", "2026-02-12"),
    Loan("bk-2", "Frankenstein", "Mary Shelley", "2026-02-20"),
    Loan("bk-3", "The Time Machine", "H. G. Wells", "2026-02-28")
  ]

  /** The catalog list of a first visit. */
  const CatalogSeed: seq<Json> := [
    Ebook("eb-1", "Pride and Prejudice", "Jane Austen", "EPUB"),
    Ebook("eb-2", "Moby-Dick", "Herman Melville", "PDF"),
    Ebook("eb-3", "Dracula", "Bram Stoker", "EPUB")
  ]

  /** The store after `login(name)`. */
  function LoginItems(items: Items, name: string): Items {
    items[AuthKey := "true"][UserKey := name]
  }

  /** The store after `logout()`. */
  function LogoutItems(items: Items): Items {
    items - {AuthKey, UserKey}
  }

  /** After `login(name)` the stored session reads as logged in as `name`. */
  lemma LoginReadsBack(items: Items, name: string)
    ensures ReadStoredBoolean(LoginItems(items, name), AuthKey, false)
    ensures ReadStoredString(LoginItems(items, name), UserKey, "") == name
  {
  }

  /** Logging in and then out leaves the store as logging out alone would: both
      session keys gone, the rest untouched, the session read as the default. */
  lemma LoginThenLogout(items: Items, name: string)
    ensures LogoutItems(LoginItems(items, name)) == LogoutItems(items)
    ensures AuthKey !in LogoutItems(items) && UserKey !in LogoutItems(items)
    ensures forall k :: k != AuthKey && k != UserKey && k in items ==> k in LogoutItems(items) && LogoutItems(items)[k] == items[k]
    ensures !ReadStoredBoolean(LogoutItems(items), AuthKey, false)
    ensures ReadStoredString(LogoutItems(items), UserKey, "") == ""
  {
  }

  /** The five keys are told apart by their eighth character. */
  lemma KeysDistinct()
    ensures var keys := [AuthKey, UserKey, BorrowedKey, PurchasedKey, CatalogKey];
      forall i, j :: 0 <= i < j < 5 ==> keys[i] != keys[j]
  {
    var keys := [AuthKey, UserKey, BorrowedKey, PurchasedKey, CatalogKey];
    assert keys[0][7] == 'I' && keys[1][7] == 'C' && keys[2][7] == 'B';
    assert keys[3][7] == 'P' && keys[4][7] == 'E';
  }

  lemma LoanWellFormed(id: string, title: string, author: string, due: string)
    ensures WellFormed(Loan(id, title, author, due))
  {
    var ms := Loan(id, title, author, due).members;
    assert ms[0].0[0] == 'i' && ms[1].0[0] == 't' && ms[2].0[0] == 'a' && ms[3].0[0] == 'd';
  }

  lemma EbookWellFormed(id: string, title: string, author: string, format: string)
    ensures WellFormed(Ebook(id, title, author, format))
  {
    var ms := Ebook(id, title, author, format).members;
    assert ms[0].0[0] == 'i' && ms[1].0[0] == 't' && ms[2].0[0] == 'a' && ms[3].0[0] == 'f';
  }

  /** Logging out leaves every stored list as it was read. */
  lemma SessionKeysElsewhere(items: Items)
    ensures forall fallback :: ReadStoredList(LogoutItems(items), BorrowedKey, fallback) == ReadStoredList(items, BorrowedKey, fallback)
    ensures forall fallback :: ReadStoredList(LogoutItems(items), PurchasedKey, fallback) == ReadStoredList(items, PurchasedKey, fallback)
    ensures forall fallback :: ReadStoredList(LogoutItems(items), CatalogKey, fallback) == ReadStoredList(items, CatalogKey, fallback)
  {
    KeysDistinct();
    var out := LogoutItems(items);
    assert forall k :: k != AuthKey && k != UserKey ==> (k in out <==> k in items) && (k in out ==> out[k] == items[k]);
  }

  lemma SeedsWellFormed()
    ensures AllWellFormed(BorrowedSeed) && AllWellFormed(CatalogSeed)
  {
    LoanWellFormed("bk-1", "The Picture of Dorian Gray", "Oscar Wilde", "2026-02-12");
    LoanWellFormed("bk-2", "Frankenstein", "Mary Shelley", "2026-02-20");
    LoanWellFormed("bk-3", "The Time Machine", "H. G. Wells", "2026-02-28");
    EbookWellFormed("eb-1", "Pride and Prejudice", "Jane Austen", "EPUB");
    EbookWellFormed("eb-2", "Moby-Dick", "Herman Melville", "PDF");
    EbookWellFormed("eb-3", "Dracula", "Bram Stoker", "EPUB");
  }

  /** Every state cell is what hydration would read from `items`, and every list is well formed. */
  ghost predicate SyncedWith(items: Items, loggedIn: bool, user: string, borrowed: seq<Json>, purchased: seq<Json>, catalog: seq<Json>) {
    && loggedIn == ReadStoredBoolean(items, AuthKey, false)
    && user == ReadStoredString(items, UserKey, "")
    && borrowed == ReadStoredList(items, BorrowedKey, BorrowedSeed)
    && purchased == ReadStoredList(items, PurchasedKey, [])
    && catalog == ReadStoredList(items, CatalogKey, CatalogSeed)
    && AllWellFormed(borrowed) && AllWellFormed(purchased) && AllWellFormed(catalog)
  }

  /** Two stores holding the same entry under `key` read the same list there. */
  lemma SameEntrySameList(a: Items, b: Items, key: string, fallback: seq<Json>)
    requires GetItem(a, key) == GetItem(b, key)
    ensures ReadStoredList(a, key, fallback) == ReadStoredList(b, key, fallback)
  {
  }

  /** Logging in keeps the store in step with the session set to the name. */
  lemma LoginSynced(items: Items, name: string, loggedIn: bool, user: string, borrowed: seq<Json>, purchased: seq<Json>, catalog: seq<Json>)
    requires SyncedWith(items, loggedIn, user, borrowed, purchased, catalog)
    ensures SyncedWith(LoginItems(items, name), true, name, borrowed, purchased, catalog)
  {
    var after := LoginItems(items, name);
    LoginReadsBack(items, name);
    KeysDistinct();
    assert BorrowedKey != AuthKey && BorrowedKey != UserKey;
    assert PurchasedKey != AuthKey && PurchasedKey != UserKey;
    assert CatalogKey != AuthKey && CatalogKey != UserKey;
    SameEntrySameList(items, after, BorrowedKey, BorrowedSeed);
    SameEntrySameList(items, after, PurchasedKey, []);
    SameEntrySameList(items, after, CatalogKey, CatalogSeed);
  }

  /** Logging out keeps the store in step with the cleared session. */
  lemma LogoutSynced(items: Items, loggedIn: bool, user: string, borrowed: seq<Json>, purchased: seq<Json>, catalog: seq<Json>)
    requires SyncedWith(items, loggedIn, user, borrowed, purchased, catalog)
    ensures SyncedWith(LogoutItems(items), false, "", borrowed, purchased, catalog)
  {
    LoginThenLogout(items, "");
    SessionKeysElsewhere(items);
  }

  /** Writing a list key leaves both session cells reading as before. */
  lemma WriteKeepsSession(items: Items, key: string, next: seq<Json>)
    requires key == BorrowedKey || key == PurchasedKey || key == CatalogKey
    ensures ReadStoredBoolean(WriteList(items, key, next), AuthKey, false) == ReadStoredBoolean(items, AuthKey, false)
    ensures ReadStoredString(WriteList(items, key, next), UserKey, "") == ReadStoredString(items, UserKey, "")
  {
    KeysDistinct();
    assert key != AuthKey && key != UserKey;
    assert GetItem(WriteList(items, key, next), AuthKey) == GetItem(items, AuthKey);
    assert GetItem(WriteList(items, key, next), UserKey) == GetItem(items, UserKey);
  }

  /** Writing the borrowed list keeps the store in step with the new list. */
  lemma BorrowedWriteSynced(items: Items, next: seq<Json>, loggedIn: bool, user: string, borrowed: seq<Json>, purchased: seq<Json>, catalog: seq<Json>)
    requires SyncedWith(items, loggedIn, user, borrowed, purchased, catalog) && AllWellFormed(next)
    ensures SyncedWith(WriteList(items, BorrowedKey, next), loggedIn, user, next, purchased, catalog)
  {
    KeysDistinct();
    WriteKeepsSession(items, BorrowedKey, next);
    ListWriteThrough(items, BorrowedKey, next, BorrowedSeed);
    ListWriteElsewhere(items, BorrowedKey, next, PurchasedKey, []);
    ListWriteElsewhere(items, BorrowedKey, next, CatalogKey, CatalogSeed);
  }

  /** Writing the purchased list keeps the store in step with the new list. */
  lemma PurchasedWriteSynced(items: Items, next: seq<Json>, loggedIn: bool, user: string, borrowed: seq<Json>, purchased: seq<Json>, catalog: seq<Json>)
    requires SyncedWith(items, loggedIn, user, borrowed, purchased, catalog) && AllWellFormed(next)
    ensures SyncedWith(WriteList(items, PurchasedKey, next), loggedIn, user, borrowed, next, catalog)
  {
    KeysDistinct();
    WriteKeepsSession(items, PurchasedKey, next);
    ListWriteThrough(items, PurchasedKey, next, []);
    ListWriteElsewhere(items, PurchasedKey, next, BorrowedKey, BorrowedSeed);
    ListWriteElsewhere(items, PurchasedKey, next, CatalogKey, CatalogSeed);
  }

  /** Writing the ebook list keeps the store in step with the new list. */
  lemma CatalogWriteSynced(items: Items, next: seq<Json>, loggedIn: bool, user: string, borrowed: seq<Json>, purchased: seq<Json>, catalog: seq<Json>)
    requires SyncedWith(items, loggedIn, user, borrowed, purchased, catalog) && AllWellFormed(next)
    ensures SyncedWith(WriteList(items, CatalogKey, next), loggedIn, user, borrowed, purchased, next)
  {
    KeysDistinct();
    WriteKeepsSession(items, CatalogKey, next);
    ListWriteThrough(items, CatalogKey, next, CatalogSeed);
    ListWriteElsewhere(items, CatalogKey, next, BorrowedKey, BorrowedSeed);
    ListWriteElsewhere(items, CatalogKey, next, PurchasedKey, []);
  }

  class Provider {
    const store: LocalStorage
    var isLoggedIn: bool
    var currentUser: string
    var borrowedBooks: seq<Json>
    var purchasedBooks: seq<Json>
    var catalogEbooks: seq<Json>

    /** Write-through: every state cell is what hydration would read from the store now. */
    ghost predicate Synced()
      reads this, store
    {
      SyncedWith(store.items, isLoggedIn, currentUser, borrowedBooks, purchasedBooks, catalogEbooks)
    }

    /** Hydration: each cell from its reader, with the seeds as fallbacks. */
    constructor (store: LocalStorage)
      ensures this.store == store
      ensures isLoggedIn == ReadStoredBoolean(store.items, AuthKey, false)
      ensures currentUser == ReadStoredString(store.items, UserKey, "")
      ensures borrowedBooks == ReadStoredList(store.items, BorrowedKey, BorrowedSeed)
      ensures purchasedBooks == ReadStoredList(store.items, PurchasedKey, [])
      ensures catalogEbooks == ReadStoredList(store.items, CatalogKey, CatalogSeed)
      ensures Synced()
    {
      this.store := store;
      isLoggedIn := ReadStoredBoolean(store.items, AuthKey, false);
      currentUser := ReadStoredString(store.items, UserKey, "");
      borrowedBooks := ReadStoredList(store.items, BorrowedKey, BorrowedSeed);
      purchasedBooks := ReadStoredList(store.items, PurchasedKey, []);
      catalogEbooks := ReadStoredList(store.items, CatalogKey, CatalogSeed);
      SeedsWellFormed();
    }

    /** `login(userName)`. */
    method Login(userName: string)
      requires Synced()
      modifies this, store
      ensures isLoggedIn && currentUser == userName
      ensures store.items == LoginItems(old(store.items), userName)
      ensures borrowedBooks == old(borrowedBooks) && purchasedBooks == old(purchasedBooks)
      ensures catalogEbooks == old(catalogEbooks)
      ensures Synced()
    {
      currentUser := userName;
      isLoggedIn := true;
      LoginSynced(store.items, userName, old(isLoggedIn), old(currentUser), borrowedBooks, purchasedBooks, catalogEbooks);
      store.SetItem(AuthKey, "true");
      store.SetItem(UserKey, userName);
    }

    /** `logout()`. */
    method Logout()
      requires Synced()
      modifies this, store
      ensures !isLoggedIn && currentUser == ""
      ensures store.items == LogoutItems(old(store.items))
      ensures borrowedBooks == old(borrowedBooks) && purchasedBooks == old(purchasedBooks)
      ensures catalogEbooks == old(catalogEbooks)
      ensures Synced()
    {
      isLoggedIn := false;
      currentUser := "";
      LogoutSynced(store.items, old(isLoggedIn), old(currentUser), borrowedBooks, purchasedBooks, catalogEbooks);
      store.RemoveItem(AuthKey);
      store.RemoveItem(UserKey);
    }

    /** `addBorrowedBook(book)`: a book whose id is already borrowed changes nothing,
        not even the store; otherwise it is appended and the list written. */
    method AddBorrowedBook(book: Json)
      requires Synced() && WellFormed(book)
      modifies this, store
      ensures borrowedBooks == AddIfAbsent(old(borrowedBooks), book)
      ensures HasId(old(borrowedBooks), Id(book)) ==> store.items == old(store.items)
      ensures !HasId(old(borrowedBooks), Id(book)) ==> store.items == WriteList(old(store.items), BorrowedKey, borrowedBooks)
      ensures isLoggedIn == old(isLoggedIn) && currentUser == old(currentUser)
      ensures purchasedBooks == old(purchasedBooks) && catalogEbooks == old(catalogEbooks)
      ensures Synced()
    {
      if HasId(borrowedBooks, Id(book)) {
        return;
      }
      var next := borrowedBooks + [book];
      BorrowedWriteSynced(store.items, next, isLoggedIn, currentUser, borrowedBooks, purchasedBooks, catalogEbooks);
      WriteThrough(BorrowedKey, next);
      borrowedBooks := next;
    }

    /** `returnBorrowedBook(bookId)`. */
    method ReturnBorrowedBook(bookId: Option<Json>)
      requires Synced()
      modifies this, store
      ensures borrowedBooks == RemoveId(old(borrowedBooks), bookId)
      ensures store.items == WriteList(old(store.items), BorrowedKey, borrowedBooks)
      ensures isLoggedIn == old(isLoggedIn) && currentUser == old(currentUser)
      ensures purchasedBooks == old(purchasedBooks) && catalogEbooks == old(catalogEbooks)
      ensures Synced()
    {
      var next := RemoveId(borrowedBooks, bookId);
      RemoveKeepsWellFormed(borrowedBooks, bookId);
      BorrowedWriteSynced(store.items, next, isLoggedIn, currentUser, borrowedBooks, purchasedBooks, catalogEbooks);
      WriteThrough(BorrowedKey, next);
      borrowedBooks := next;
    }

    /** `updateBorrowedDueDate(bookId, daysToAdd = 7)`. */
    method UpdateBorrowedDueDate(bookId: Option<Json>, daysToAdd: int := 7)
      requires Synced()
      modifies this, store
      ensures borrowedBooks == RenewDue(old(borrowedBooks), bookId, daysToAdd)
      ensures store.items == WriteList(old(store.items), BorrowedKey, borrowedBooks)
      ensures isLoggedIn == old(isLoggedIn) && currentUser == old(currentUser)
      ensures purchasedBooks == old(purchasedBooks) && catalogEbooks == old(catalogEbooks)
      ensures Synced()
    {
      var next := RenewDue(borrowedBooks, bookId, daysToAdd);
      RenewKeepsWellFormed(borrowedBooks, bookId, daysToAdd);
      BorrowedWriteSynced(store.items, next, isLoggedIn, currentUser, borrowedBooks, purchasedBooks, catalogEbooks);
      WriteThrough(BorrowedKey, next);
      borrowedBooks := next;
    }

    /** `addPurchasedBook(book)`; there is no check against the catalog. */
    method AddPurchasedBook(book: Json)
      requires Synced() && WellFormed(book)
      modifies this, store
      ensures purchasedBooks == AddIfAbsent(old(purchasedBooks), book)
      ensures HasId(old(purchasedBooks), Id(book)) ==> store.items == old(store.items)
      ensures !HasId(old(purchasedBooks), Id(book)) ==> store.items == WriteList(old(store.items), PurchasedKey, purchasedBooks)
      ensures isLoggedIn == old(isLoggedIn) && currentUser == old(currentUser)
      ensures borrowedBooks == old(borrowedBooks) && catalogEbooks == old(catalogEbooks)
      ensures Synced()
    {
      if HasId(purchasedBooks, Id(book)) {
        return;
      }
      var next := purchasedBooks + [book];
      PurchasedWriteSynced(store.items, next, isLoggedIn, currentUser, borrowedBooks, purchasedBooks, catalogEbooks);
      WriteThrough(PurchasedKey, next);
      purchasedBooks := next;
    }

    /** `removePurchasedBook(bookId)`. */
    method RemovePurchasedBook(bookId: Option<Json>)
      requires Synced()
      modifies this, store
      ensures purchasedBooks == RemoveId(old(purchasedBooks), bookId)
      ensures store.items == WriteList(old(store.items), PurchasedKey, purchasedBooks)
      ensures isLoggedIn == old(isLoggedIn) && currentUser == old(currentUser)
      ensures borrowedBooks == old(borrowedBooks) && catalogEbooks == old(catalogEbooks)
      ensures Synced()
    {
      var next := RemoveId(purchasedBooks, bookId);
      RemoveKeepsWellFormed(purchasedBooks, bookId);
      PurchasedWriteSynced(store.items, next, isLoggedIn, currentUser, borrowedBooks, purchasedBooks, catalogEbooks);
      WriteThrough(PurchasedKey, next);
      purchasedBooks := next;
    }

    /** `removeCatalogEbook(ebookId)`. */
    method RemoveCatalogEbook(ebookId: Option<Json>)
      requires Synced()
      modifies this, store
      ensures catalogEbooks == RemoveId(old(catalogEbooks), ebookId)
      ensures store.items == WriteList(old(store.items), CatalogKey, catalogEbooks)
      ensures isLoggedIn == old(isLoggedIn) && currentUser == old(currentUser)
      ensures borrowedBooks == old(borrowedBooks) && purchasedBooks == old(purchasedBooks)
      ensures Synced()
    {
      var next := RemoveId(catalogEbooks, ebookId);
      RemoveKeepsWellFormed(catalogEbooks, ebookId);
      CatalogWriteSynced(store.items, next, isLoggedIn, currentUser, borrowedBooks, purchasedBooks, catalogEbooks);
      WriteThrough(CatalogKey, next);
      catalogEbooks := next;
    }

    /** `localStorage.setItem(key, JSON.stringify(next))` for one of the three list keys. */
    method WriteThrough(key: string, next: seq<Json>)
      requires AllWellFormed(next)
      requires key == BorrowedKey || key == PurchasedKey || key == CatalogKey
      modifies store
      ensures store.items == WriteList(old(store.items), key, next)
      ensures forall fallback :: ReadStoredList(store.items, key, fallback) == next
      ensures ReadStoredBoolean(store.items, AuthKey, false) == ReadStoredBoolean(old(store.items), AuthKey, false)
      ensures ReadStoredString(store.items, UserKey, "") == ReadStoredString(old(store.items), UserKey, "")
    {
      var items := store.items;
      store.SetItem(key, Encode(JArr(next)));
      forall fallback
        ensures ReadStoredList(store.items, key, fallback) == next
      {
        ListWriteThrough(items, key, next, fallback);
      }
      WriteKeepsSession(items, key, next);
    }
  }
}
