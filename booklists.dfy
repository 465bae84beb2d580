/** The id-keyed lists the state provider keeps (borrowed books, purchased
    books, catalog ebooks) and the three ways it changes them: add unless the
    id is present, drop every entry with an id, and renew the due date of the
    entries with an id. Entries are JSON values as read back from storage. */
module BookLists {
  import opened Wrappers
  import opened Json
  import opened Sequences
  import opened Calendar

  /** `v[key]` on an object; `None` (`undefined`) on anything else. */
  function Member(v: Json, key: string): (r: Option<Json>)
    ensures r.Some? ==> v.JObj?
  {
    if v.JObj? then Lookup(v.members, key) else None
  }

  /** `item.id`. */
  function Id(v: Json): Option<Json> {
    Member(v, "id")
  }

  /** `xs.some((item) => item.id === id)`. */
  predicate HasId(xs: seq<Json>, id: Option<Json>) {
    exists i :: 0 <= i < |xs| && Id(xs[i]) == id
  }

  /** No two entries share an id (entries without one count as sharing `undefined`). */
  predicate UniqueIds(xs: seq<Json>) {
    forall i, j :: 0 <= i < j < |xs| ==> Id(xs[i]) != Id(xs[j])
  }

  // ---------------------------------------------------------------------------
  // Adding

  /** The list after adding `book`: unchanged when an entry has its id,
      otherwise `[...xs, book]`. */
  function AddIfAbsent(xs: seq<Json>, book: Json): (r: seq<Json>)
    ensures HasId(r, Id(book))
    ensures r == xs <==> HasId(xs, Id(book))
    ensures r != xs ==> r == xs + [book]
  {
    if HasId(xs, Id(book)) then xs
    else
      assert Id((xs + [book])[|xs|]) == Id(book);
      xs + [book]
  }

  /** Adding the same book twice is adding it once. */
  lemma AddIdempotent(xs: seq<Json>, book: Json)
    ensures AddIfAbsent(AddIfAbsent(xs, book), book) == AddIfAbsent(xs, book)
  {
  }

  /** Adding keeps ids unique. */
  lemma AddKeepsUnique(xs: seq<Json>, book: Json)
    requires UniqueIds(xs)
    ensures UniqueIds(AddIfAbsent(xs, book))
  {
    var r := AddIfAbsent(xs, book);
    if r != xs {
      forall i, j | 0 <= i < j < |r|
        ensures Id(r[i]) != Id(r[j])
      {
        if j == |xs| {
          assert r[i] == xs[i];
        }
      }
    }
  }

  // ---------------------------------------------------------------------------
  // Removing

  /** `xs.filter((item) => item.id !== id)`, written out over the list. */
  function RemoveId(xs: seq<Json>, id: Option<Json>): (r: seq<Json>)
    ensures !HasId(r, id)
  {
    if xs == [] then []
    else if Id(xs[0]) != id then [xs[0]] + RemoveId(xs[1..], id)
    else RemoveId(xs[1..], id)
  }

  /** The written-out removal is `filter` with the source's test. */
  lemma {:induction false} RemoveIdIsFilter(xs: seq<Json>, id: Option<Json>)
    ensures RemoveId(xs, id) == Filter(xs, (v: Json) => Id(v) != id)
  {
    if xs != [] {
      RemoveIdIsFilter(xs[1..], id);
    }
  }

  /** An entry survives exactly when it was there and has another id. */
  lemma RemoveIdMembers(xs: seq<Json>, id: Option<Json>, v: Json)
    ensures v in RemoveId(xs, id) <==> v in xs && Id(v) != id
  {
    RemoveIdIsFilter(xs, id);
    FilterMembers(xs, (v: Json) => Id(v) != id, v);
  }

  /** The survivors keep their order. */
  lemma RemoveIdSubseq(xs: seq<Json>, id: Option<Json>)
    ensures IsSubseq(RemoveId(xs, id), xs)
  {
    RemoveIdIsFilter(xs, id);
    FilterSubseq(xs, (v: Json) => Id(v) != id);
  }

  /** Removing an id that is not there changes nothing. */
  lemma RemoveAbsent(xs: seq<Json>, id: Option<Json>)
    requires !HasId(xs, id)
    ensures RemoveId(xs, id) == xs
  {
    RemoveIdIsFilter(xs, id);
    FilterAllPass(xs, (v: Json) => Id(v) != id);
  }

  /** Removing twice is removing once. */
  lemma RemoveIdempotent(xs: seq<Json>, id: Option<Json>)
    ensures RemoveId(RemoveId(xs, id), id) == RemoveId(xs, id)
  {
    RemoveAbsent(RemoveId(xs, id), id);
  }

  lemma {:induction false} FilterKeepsUnique(xs: seq<Json>, keep: Json -> bool)
    requires UniqueIds(xs)
    ensures UniqueIds(Filter(xs, keep))
  {
    if xs != [] {
      FilterKeepsUnique(xs[1..], keep);
      if keep(xs[0]) {
        var r := Filter(xs, keep);
        forall j | 0 < j < |r|
          ensures Id(r[0]) != Id(r[j])
        {
          FilterMembers(xs[1..], keep, r[j]);
        }
      }
    }
  }

  /** Removing keeps ids unique. */
  lemma RemoveKeepsUnique(xs: seq<Json>, id: Option<Json>)
    requires UniqueIds(xs)
    ensures UniqueIds(RemoveId(xs, id))
  {
    RemoveIdIsFilter(xs, id);
    FilterKeepsUnique(xs, (v: Json) => Id(v) != id);
  }

  lemma {:induction false} FilterKeepsWellFormed(xs: seq<Json>, keep: Json -> bool)
    requires AllWellFormed(xs)
    ensures AllWellFormed(Filter(xs, keep))
  {
    if xs != [] {
      FilterKeepsWellFormed(xs[1..], keep);
    }
  }

  /** Removal keeps every entry well formed. */
  lemma RemoveKeepsWellFormed(xs: seq<Json>, id: Option<Json>)
    requires AllWellFormed(xs)
    ensures AllWellFormed(RemoveId(xs, id))
  {
    RemoveIdIsFilter(xs, id);
    FilterKeepsWellFormed(xs, (v: Json) => Id(v) != id);
  }

  // ---------------------------------------------------------------------------
  // Renewing

  /** One entry of `updateBorrowedDueDate`: an entry with another id, or whose
      `due` is not a valid date, is returned as it is; otherwise `{ ...book, due }`
      with the shifted date. */
  function Renew(book: Json, id: Option<Json>, days: int): Json {
    if Id(book) != id then book
    else
      match RenewedDue(Member(book, "due"), days)
      case None => book
      case Some(due) => JObj(Put(book.members, "due", JStr(due)))
  }

  /** `xs.map(...)` with `Renew`; the number of days defaults to a week. */
  function RenewDue(xs: seq<Json>, id: Option<Json>, days: int := 7): (r: seq<Json>)
    ensures |r| == |xs|
  {
    seq(|xs|, i requires 0 <= i < |xs| => Renew(xs[i], id, days))
  }

  /** Entries with another id, and entries whose due date is not valid, come out unchanged. */
  lemma RenewUnchanged(xs: seq<Json>, id: Option<Json>, days: int, i: int)
    requires 0 <= i < |xs|
    requires Id(xs[i]) != id || DueDate(Member(xs[i], "due")).None?
    ensures RenewDue(xs, id, days)[i] == xs[i]
  {
  }

  /** A renewed entry is the same object with only `due` changed, to the shifted date. */
  lemma RenewOnlyDue(xs: seq<Json>, id: Option<Json>, days: int, i: int, k: string)
    requires 0 <= i < |xs| && Id(xs[i]) == id
    requires RenewedDue(Member(xs[i], "due"), days).Some?
    ensures var r := RenewDue(xs, id, days)[i];
      && r.JObj?
      && Member(r, "due") == Some(JStr(RenewedDue(Member(xs[i], "due"), days).value))
      && (k != "due" ==> Member(r, k) == Member(xs[i], k))
  {
    var due := RenewedDue(Member(xs[i], "due"), days).value;
    PutLookup(xs[i].members, "due", JStr(due), k);
    PutLookup(xs[i].members, "due", JStr(due), "due");
  }

  /** Renewing never changes an id, so ids stay unique. */
  lemma RenewKeepsIds(xs: seq<Json>, id: Option<Json>, days: int)
    ensures forall i :: 0 <= i < |xs| ==> Id(RenewDue(xs, id, days)[i]) == Id(xs[i])
    ensures UniqueIds(xs) ==> UniqueIds(RenewDue(xs, id, days))
  {
    forall i | 0 <= i < |xs|
      ensures Id(RenewDue(xs, id, days)[i]) == Id(xs[i])
    {
      if Id(xs[i]) == id && RenewedDue(Member(xs[i], "due"), days).Some? {
        RenewOnlyDue(xs, id, days, i, "id");
      }
    }
  }

  /** Renewing keeps every entry a value a program can hold. */
  lemma RenewKeepsWellFormed(xs: seq<Json>, id: Option<Json>, days: int)
    requires AllWellFormed(xs)
    ensures AllWellFormed(RenewDue(xs, id, days))
  {
    forall i | 0 <= i < |xs|
      ensures WellFormed(RenewDue(xs, id, days)[i])
    {
      var b := xs[i];
      var due := RenewedDue(Member(b, "due"), days);
      if Id(b) == id && due.Some? {
        var ms := Put(b.members, "due", JStr(due.value));
        forall j | 0 <= j < |ms|
          ensures WellFormed(ms[j].1)
        {
          if ms[j] != ("due", JStr(due.value)) {
            var k :| 0 <= k < |b.members| && b.members[k] == ms[j];
          }
        }
      }
    }
  }
}
