/** The catalog page: Open Library works fetched once, the subject chips, the
    search / chip / toggle filters and sorts that produce the visible list, and
    the buttons that add the selected work to the borrowed or purchased list. */
module Catalog {
  import opened Wrappers
  import opened Text
  import opened Json
  import opened Sequences
  import opened Sorting
  import opened BookLists
  import opened AppState

  datatype Author = Author(name: string)

  datatype Availability = Availability(isReadable: bool)

  /** One entry of the `works` array; `None` is a field the work does not have. */
  datatype Work = Work(
    key: Option<string>,
    title: string,
    authors: Option<seq<Author>>,
    subject: Option<seq<string>>,
    coverId: Option<int>,
    editionCount: Option<int>,
    firstPublishYear: Option<int>,
    availability: Option<Availability>)

  /** `x || fallback` for a number that may be missing: `0` is falsy too. */
  function OrElse(x: Option<int>, fallback: int): (r: int)
    ensures r == fallback || (x.Some? && x.value != 0 && r == x.value)
    ensures x.Some? && x.value != 0 ==> r == x.value
  {
    if x.Some? && x.value != 0 then x.value else fallback
  }

  const CoverPrefix := "https://covers.openlibrary.org/b/id/"

  /** `coverUrl(coverId)`: the large cover image, or `''` for a falsy id. */
  function CoverUrl(coverId: Option<int>): (r: string)
    ensures r == "" <==> OrElse(coverId, 0) == 0
  {
    if coverId.Some? && coverId.value != 0 then CoverPrefix + IntToString(coverId.value) + "-L.jpg" else ""
  }

  lemma {:induction false} IntToStringInjective(a: int, b: int)
    requires IntToString(a) == IntToString(b)
    ensures a == b
  {
    if a < 0 {
      assert IntToString(b)[0] == '-';
      assert b < 0;
      assert IntToString(a)[1..] == NatToDigits(-a);
      DigitsRoundTrip(-a);
      DigitsRoundTrip(-b);
    } else {
      assert IsDigit(IntToString(b)[0]);
      assert b >= 0;
      DigitsRoundTrip(a);
      DigitsRoundTrip(b);
    }
  }

  /** Different cover ids give different URLs: the id can be read back from the URL. */
  lemma CoverUrlInjective(a: Option<int>, b: Option<int>)
    requires CoverUrl(a) == CoverUrl(b) != ""
    ensures a == b
  {
    var sa, sb := IntToString(a.value), IntToString(b.value);
    var n := |CoverPrefix|;
    assert CoverUrl(a) == CoverPrefix + (sa + "-L.jpg");
    assert CoverUrl(b) == CoverPrefix + (sb + "-L.jpg");
    assert CoverUrl(a)[n..] == sa + "-L.jpg";
    assert CoverUrl(b)[n..] == sb + "-L.jpg";
    assert |sa| == |sb|;
    assert sa == (sa + "-L.jpg")[..|sa|];
    IntToStringInjective(a.value, b.value);
  }

  // ---------------------------------------------------------------------------
  // Filters

  datatype SortBy = Relevant | Popular | TitleOrder | Newest

  /** The six toggles, all off at first. */
  datatype Filters = Filters(withCover: bool, withAuthor: bool, digital: bool, classic: bool, popular: bool, shortTitle: bool)

  datatype FilterKey = WithCover | WithAuthor | Digital | Classic | PopularOnly | ShortTitle

  const NoFilters := Filters(false, false, false, false, false, false)

  function Flag(f: Filters, k: FilterKey): bool {
    match k
    case WithCover => f.withCover
    case WithAuthor => f.withAuthor
    case Digital => f.digital
    case Classic => f.classic
    case PopularOnly => f.popular
    case ShortTitle => f.shortTitle
  }

  /** `{ ...prev, [key]: !prev[key] }`. */
  function Toggle(f: Filters, k: FilterKey): (r: Filters)
    ensures Flag(r, k) == !Flag(f, k)
    ensures forall other :: other != k ==> Flag(r, other) == Flag(f, other)
  {
    match k
    case WithCover => f.(withCover := !f.withCover)
    case WithAuthor => f.(withAuthor := !f.withAuthor)
    case Digital => f.(digital := !f.digital)
    case Classic => f.(classic := !f.classic)
    case PopularOnly => f.(popular := !f.popular)
    case ShortTitle => f.(shortTitle := !f.shortTitle)
  }

  /** Toggling the same filter twice restores the filters. */
  lemma ToggleTwice(f: Filters, k: FilterKey)
    ensures Toggle(Toggle(f, k), k) == f
  {
  }

  function AuthorList(w: Work): seq<Author> {
    w.authors.GetOr([])
  }

  /** The lowercased author names joined by spaces. */
  function AuthorNames(w: Work): string {
    var authors := AuthorList(w);
    Join(seq(|authors|, i requires 0 <= i < |authors| => Lower(authors[i].name)), " ")
  }

  /** The search test for an already trimmed and lowercased query. */
  predicate MatchesSearch(w: Work, q: string) {
    Includes(Lower(w.title), q) || Includes(AuthorNames(w), q)
  }

  predicate HasCover(w: Work) {
    OrElse(w.coverId, 0) != 0
  }

  predicate HasAuthors(w: Work) {
    w.authors.Some? && |w.authors.value| > 0
  }

  predicate IsReadable(w: Work) {
    w.availability.Some? && w.availability.value.isReadable
  }

  /** First published by 1950; a missing year counts as 3000. */
  predicate IsClassic(w: Work) {
    OrElse(w.firstPublishYear, 3000) <= 1950
  }

  function Editions(w: Work): int {
    OrElse(w.editionCount, 0)
  }

  predicate IsPopular(w: Work) {
    Editions(w) >= 25
  }

  function WordCount(title: string): nat {
    |SplitWs(Trim(title))|
  }

  predicate IsShortTitle(w: Work) {
    WordCount(w.title) <= 4
  }

  function Year(w: Work): int {
    OrElse(w.firstPublishYear, 0)
  }

  /** Everything a kept work satisfies. */
  predicate Passes(w: Work, term: string, chip: string, f: Filters) {
    && (Trim(term) != "" ==> MatchesSearch(w, Lower(Trim(term))))
    && (chip != "all" ==> chip in w.subject.GetOr([]))
    && PassesToggles(w, f)
  }

  predicate PassesToggles(w: Work, f: Filters) {
    && (f.withCover ==> HasCover(w))
    && (f.withAuthor ==> HasAuthors(w))
    && (f.digital ==> IsReadable(w))
    && (f.classic ==> IsClassic(w))
    && (f.popular ==> IsPopular(w))
    && (f.shortTitle ==> IsShortTitle(w))
  }

  function SearchTest(q: string): Work -> bool {
    (w: Work) => MatchesSearch(w, q)
  }

  function ChipTest(chip: string): Work -> bool {
    (w: Work) => chip in w.subject.GetOr([])
  }

  function When(on: bool, list: seq<Work>, keep: Work -> bool): seq<Work> {
    if on then Filter(list, keep) else list
  }

  /** The search and chip stages. */
  function Narrowed(books: seq<Work>, term: string, chip: string): seq<Work> {
    When(chip != "all", When(Trim(term) != "", books, SearchTest(Lower(Trim(term)))), ChipTest(chip))
  }

  /** The six toggle stages. */
  function Toggled(list: seq<Work>, f: Filters): seq<Work> {
    var l2 := When(f.withCover, list, HasCover);
    var l3 := When(f.withAuthor, l2, HasAuthors);
    var l4 := When(f.digital, l3, IsReadable);
    var l5 := When(f.classic, l4, IsClassic);
    var l6 := When(f.popular, l5, IsPopular);
    When(f.shortTitle, l6, IsShortTitle)
  }

  /** The works `filteredBooks` keeps, in their fetched order. */
  function Selected(books: seq<Work>, term: string, chip: string, f: Filters): seq<Work> {
    Toggled(Narrowed(books, term, chip), f)
  }

  lemma WhenMembers(on: bool, list: seq<Work>, keep: Work -> bool, w: Work)
    ensures w in When(on, list, keep) <==> w in list && (on ==> keep(w))
  {
    if on {
      FilterMembers(list, keep, w);
    }
  }

  lemma WhenSubseq(on: bool, list: seq<Work>, keep: Work -> bool, books: seq<Work>)
    requires IsSubseq(list, books)
    ensures IsSubseq(When(on, list, keep), books)
  {
    if on {
      FilterSubseq(list, keep);
      SubseqTransitive(Filter(list, keep), list, books);
    }
  }

  lemma NarrowedMembers(books: seq<Work>, term: string, chip: string, w: Work)
    ensures w in Narrowed(books, term, chip) <==>
      && w in books
      && (Trim(term) != "" ==> MatchesSearch(w, Lower(Trim(term))))
      && (chip != "all" ==> chip in w.subject.GetOr([]))
  {
    var l0 := When(Trim(term) != "", books, SearchTest(Lower(Trim(term))));
    WhenMembers(Trim(term) != "", books, SearchTest(Lower(Trim(term))), w);
    WhenMembers(chip != "all", l0, ChipTest(chip), w);
  }

  lemma ToggledMembers(list: seq<Work>, f: Filters, w: Work)
    ensures w in Toggled(list, f) <==> w in list && PassesToggles(w, f)
  {
    var l2 := When(f.withCover, list, HasCover);
    var l3 := When(f.withAuthor, l2, HasAuthors);
    var l4 := When(f.digital, l3, IsReadable);
    var l5 := When(f.classic, l4, IsClassic);
    var l6 := When(f.popular, l5, IsPopular);
    WhenMembers(f.withCover, list, HasCover, w);
    WhenMembers(f.withAuthor, l2, HasAuthors, w);
    WhenMembers(f.digital, l3, IsReadable, w);
    WhenMembers(f.classic, l4, IsClassic, w);
    WhenMembers(f.popular, l5, IsPopular, w);
    WhenMembers(f.shortTitle, l6, IsShortTitle, w);
  }

  /** A work is shown exactly when it was fetched and passes every active filter. */
  lemma SelectedMembers(books: seq<Work>, term: string, chip: string, f: Filters, w: Work)
    ensures w in Selected(books, term, chip, f) <==> w in books && Passes(w, term, chip, f)
  {
    NarrowedMembers(books, term, chip, w);
    ToggledMembers(Narrowed(books, term, chip), f, w);
  }

  lemma ToggledSubseq(list: seq<Work>, f: Filters, books: seq<Work>)
    requires IsSubseq(list, books)
    ensures IsSubseq(Toggled(list, f), books)
  {
    var l2 := When(f.withCover, list, HasCover);
    var l3 := When(f.withAuthor, l2, HasAuthors);
    var l4 := When(f.digital, l3, IsReadable);
    var l5 := When(f.classic, l4, IsClassic);
    var l6 := When(f.popular, l5, IsPopular);
    WhenSubseq(f.withCover, list, HasCover, books);
    WhenSubseq(f.withAuthor, l2, HasAuthors, books);
    WhenSubseq(f.digital, l3, IsReadable, books);
    WhenSubseq(f.classic, l4, IsClassic, books);
    WhenSubseq(f.popular, l5, IsPopular, books);
    WhenSubseq(f.shortTitle, l6, IsShortTitle, books);
  }

  /** The filters never invent or reorder works. */
  lemma SelectedSubseq(books: seq<Work>, term: string, chip: string, f: Filters)
    ensures IsSubseq(Selected(books, term, chip, f), books)
  {
    SubseqRefl(books);
    var l0 := When(Trim(term) != "", books, SearchTest(Lower(Trim(term))));
    WhenSubseq(Trim(term) != "", books, SearchTest(Lower(Trim(term))), books);
    WhenSubseq(chip != "all", l0, ChipTest(chip), books);
    ToggledSubseq(Narrowed(books, term, chip), f, books);
  }

  /** A search box holding only spaces filters nothing. */
  lemma BlankSearch(books: seq<Work>, term: string, chip: string, f: Filters)
    requires AllSpace(term)
    ensures Selected(books, term, chip, f) == Selected(books, "", chip, f)
  {
    TrimBlank(term);
    TrimBlank("");
  }

  // ---------------------------------------------------------------------------
  // The visible list

  predicate TitleLe(a: Work, b: Work) {
    LexLe(a.title, b.title)
  }

  predicate YearLe(a: Work, b: Work) {
    Year(a) >= Year(b)
  }

  predicate EditionsLe(a: Work, b: Work) {
    Editions(a) >= Editions(b)
  }

  lemma TitleOrderTotal()
    ensures TotalOrder(TitleLe)
  {
    forall a: Work, b: Work
      ensures TitleLe(a, b) || TitleLe(b, a)
    {
      LexLeTotal(a.title, b.title);
    }
    forall a: Work, b: Work, c: Work | TitleLe(a, b) && TitleLe(b, c)
      ensures TitleLe(a, c)
    {
      LexLeTransitive(a.title, b.title, c.title);
    }
  }

  /** `filteredBooks`: the list is narrowed stage by stage, then sorted. */
  method FilteredBooks(books: seq<Work>, searchTerm: string, activeChip: string, filters: Filters, sortBy: SortBy)
    returns (list: seq<Work>)
    ensures sortBy == Relevant ==> list == Selected(books, searchTerm, activeChip, filters)
    ensures multiset(list) == multiset(Selected(books, searchTerm, activeChip, filters))
    ensures sortBy == TitleOrder ==> forall i, j :: 0 <= i < j < |list| ==> LexLe(list[i].title, list[j].title)
    ensures sortBy == Newest ==> forall i, j :: 0 <= i < j < |list| ==> Year(list[i]) >= Year(list[j])
    ensures sortBy == Popular ==> forall i, j :: 0 <= i < j < |list| ==> Editions(list[i]) >= Editions(list[j])
  {
    list := books;
    if Trim(searchTerm) != "" {
      var q := Lower(Trim(searchTerm));
      list := Filter(list, SearchTest(q));
    }
    list := Stage(activeChip != "all", list, ChipTest(activeChip));
    assert list == Narrowed(books, searchTerm, activeChip);
    list := ToggleStages(list, filters);
    list := SortList(list, sortBy);
  }

  /** One `if (flag) list = list.filter(keep)` step. */
  method Stage(on: bool, list: seq<Work>, keep: Work -> bool) returns (r: seq<Work>)
    ensures r == When(on, list, keep)
    ensures forall w :: w in r <==> w in list && (on ==> keep(w))
  {
    r := list;
    if on {
      r := Filter(r, keep);
      forall w
        ensures w in r <==> w in list && keep(w)
      {
        FilterMembers(list, keep, w);
      }
    }
  }

  /** The six toggle steps of `filteredBooks`, in source order. */
  method ToggleStages(list: seq<Work>, filters: Filters) returns (r: seq<Work>)
    ensures r == Toggled(list, filters)
    ensures forall w :: w in r <==> w in list && PassesToggles(w, filters)
  {
    r := Stage(filters.withCover, list, HasCover);
    r := Stage(filters.withAuthor, r, HasAuthors);
    r := Stage(filters.digital, r, IsReadable);
    r := Stage(filters.classic, r, IsClassic);
    r := Stage(filters.popular, r, IsPopular);
    r := Stage(filters.shortTitle, r, IsShortTitle);
    forall w
      ensures w in r <==> w in list && PassesToggles(w, filters)
    {
      ToggledMembers(list, filters, w);
    }
  }

  /** The sort step of `filteredBooks`: by title, newest year first, most
      editions first, or left in fetched order. */
  method SortList(list: seq<Work>, sortBy: SortBy) returns (r: seq<Work>)
    ensures sortBy == Relevant ==> r == list
    ensures multiset(r) == multiset(list)
    ensures sortBy == TitleOrder ==> forall i, j :: 0 <= i < j < |r| ==> LexLe(r[i].title, r[j].title)
    ensures sortBy == Newest ==> forall i, j :: 0 <= i < j < |r| ==> Year(r[i]) >= Year(r[j])
    ensures sortBy == Popular ==> forall i, j :: 0 <= i < j < |r| ==> Editions(r[i]) >= Editions(r[j])
  {
    match sortBy
    case TitleOrder =>
      TitleOrderTotal();
      r := SortSeq(list, TitleLe);
    case Newest =>
      r := SortSeq(list, YearLe);
    case Popular =>
      r := SortSeq(list, EditionsLe);
    case Relevant =>
      r := list;
  }

  // ---------------------------------------------------------------------------
  // Subject chips

  /** `(book.subject || []).slice(0, 4)`: the subjects of a work that are counted. */
  function FirstSubjects(w: Work): (r: seq<string>)
    ensures |r| <= 4
  {
    var s := w.subject.GetOr([]);
    if |s| <= 4 then s else s[..4]
  }

  /** Every counted subject occurrence, work by work. */
  function Counted(books: seq<Work>): seq<string> {
    if books == [] then [] else Counted(books[..|books| - 1]) + FirstSubjects(books[|books| - 1])
  }

  /** How many times `s` is counted over all works. */
  function Tally(books: seq<Work>, s: string): nat {
    multiset(Counted(books))[s]
  }

  /** A subject is counted exactly when it is among the first four subjects of some work. */
  lemma {:induction false} CountedMembers(books: seq<Work>, s: string)
    ensures s in Counted(books) <==> exists k :: 0 <= k < |books| && s in FirstSubjects(books[k])
  {
    if books != [] {
      var init := books[..|books| - 1];
      CountedMembers(init, s);
      if s in Counted(init) {
        var k :| 0 <= k < |init| && s in FirstSubjects(init[k]);
        assert books[k] == init[k];
      }
      if exists k :: 0 <= k < |books| && s in FirstSubjects(books[k]) {
        var k :| 0 <= k < |books| && s in FirstSubjects(books[k]);
        if k < |init| {
          assert init[k] == books[k];
        }
      }
    }
  }

  /** The distinct elements of `s` in order of first occurrence. */
  function Dedup(s: seq<string>): seq<string> {
    if s == [] then []
    else if s[|s| - 1] in s[..|s| - 1] then Dedup(s[..|s| - 1])
    else Dedup(s[..|s| - 1]) + [s[|s| - 1]]
  }

  /** The first-seen list holds each element of `s` exactly once. */
  lemma {:induction false} DedupFacts(s: seq<string>)
    ensures NoDuplicates(Dedup(s))
    ensures forall x :: x in Dedup(s) <==> x in s
  {
    if s != [] {
      var init := s[..|s| - 1];
      DedupFacts(init);
      assert s == init + [s[|s| - 1]];
    }
  }

  /** The tally object and its keys in insertion order after counting `seen`. */
  ghost predicate Counts(counts: map<string, nat>, keys: seq<string>, seen: seq<string>) {
    && keys == Dedup(seen)
    && NoDuplicates(keys)
    && (forall s :: s in counts <==> s in keys)
    && (forall s :: s in keys <==> s in seen)
    && (forall s :: s in counts ==> counts[s] == multiset(seen)[s])
  }

  /** Counting one more subject: a known key goes up by one, a new key starts at one and goes last. */
  lemma CountStep(counts: map<string, nat>, keys: seq<string>, seen: seq<string>, x: string)
    requires Counts(counts, keys, seen)
    ensures x in counts ==> Counts(counts[x := counts[x] + 1], keys, seen + [x])
    ensures x !in counts ==> Counts(counts[x := 1], keys + [x], seen + [x])
  {
    assert multiset(seen + [x]) == multiset(seen) + multiset{x};
    assert (seen + [x])[..|seen|] == seen;
    if x !in counts {
      assert multiset(seen)[x] == 0;
    }
  }

  /** The tally of every counted subject, keys in first-seen order. */
  method CountSubjects(books: seq<Work>) returns (counts: map<string, nat>, keys: seq<string>)
    ensures Counts(counts, keys, Counted(books))
  {
    counts := map[];
    keys := [];
    var i := 0;
    while i < |books|
      invariant 0 <= i <= |books|
      invariant Counts(counts, keys, Counted(books[..i]))
    {
      counts, keys := CountWork(counts, keys, FirstSubjects(books[i]), Counted(books[..i]));
      CountedPrefix(books, i);
      i := i + 1;
    }
    assert books[..i] == books;
  }

  /** The inner `forEach`: counts the first subjects of one work. */
  method CountWork(counts0: map<string, nat>, keys0: seq<string>, subjects: seq<string>, ghost before: seq<string>)
    returns (counts: map<string, nat>, keys: seq<string>)
    requires Counts(counts0, keys0, before)
    ensures Counts(counts, keys, before + subjects)
  {
    counts, keys := counts0, keys0;
    var j := 0;
    ghost var seen := before;
    assert before + subjects[..j] == before;
    while j < |subjects|
      invariant 0 <= j <= |subjects|
      invariant seen == before + subjects[..j]
      invariant Counts(counts, keys, seen)
    {
      PrefixStep(before, subjects, j);
      counts, keys := CountOne(counts, keys, subjects[j], seen);
      seen := seen + [subjects[j]];
      j := j + 1;
    }
    assert subjects[..j] == subjects;
  }

  /** `subjectCount[subject] = (subjectCount[subject] || 0) + 1`. */
  method CountOne(counts0: map<string, nat>, keys0: seq<string>, subject: string, ghost seen: seq<string>)
    returns (counts: map<string, nat>, keys: seq<string>)
    requires Counts(counts0, keys0, seen)
    ensures Counts(counts, keys, seen + [subject])
  {
    CountStep(counts0, keys0, seen, subject);
    if subject in counts0 {
      counts, keys := counts0[subject := counts0[subject] + 1], keys0;
    } else {
      counts, keys := counts0[subject := 1], keys0 + [subject];
    }
  }

  lemma PrefixStep(before: seq<string>, subjects: seq<string>, j: int)
    requires 0 <= j < |subjects|
    ensures before + subjects[..j + 1] == (before + subjects[..j]) + [subjects[j]]
  {
    assert subjects[..j + 1] == subjects[..j] + [subjects[j]];
  }

  lemma CountedPrefix(books: seq<Work>, i: int)
    requires 0 <= i < |books|
    ensures Counted(books[..i + 1]) == Counted(books[..i]) + FirstSubjects(books[i])
  {
    assert books[..i + 1][..i] == books[..i];
  }

  predicate CountLe(a: (string, nat), b: (string, nat)) {
    a.1 >= b.1
  }

  /** `chips`: `'all'`, then the eight most counted subjects, most counted first. */
  method Chips(books: seq<Work>) returns (chips: seq<string>)
    ensures |chips| >= 1 && chips[0] == "all" && |chips| <= 9
    ensures forall i :: 1 <= i < |chips| ==> chips[i] in Counted(books)
    ensures NoDuplicates(chips[1..])
    ensures forall i, j :: 1 <= i < j < |chips| ==> Tally(books, chips[i]) >= Tally(books, chips[j])
    ensures forall s :: s in Counted(books) && s !in chips[1..] ==>
      |chips| == 9 && forall i :: 1 <= i < 9 ==> Tally(books, chips[i]) >= Tally(books, s)
  {
    var counts, keys := CountSubjects(books);
    var entries := seq(|keys|, k requires 0 <= k < |keys| => (keys[k], counts[keys[k]]));
    var sorted := SortSeq(entries, CountLe);
    var top := Take(sorted, 8);
    chips := ["all"] + seq(|top|, k requires 0 <= k < |top| => top[k].0);
    TopFacts(books, counts, keys, entries, sorted, top, chips);
  }

  lemma TopFacts(books: seq<Work>, counts: map<string, nat>, keys: seq<string>, entries: seq<(string, nat)>,
                 sorted: seq<(string, nat)>, top: seq<(string, nat)>, chips: seq<string>)
    requires Counts(counts, keys, Counted(books))
    requires |entries| == |keys| && forall k :: 0 <= k < |keys| ==> entries[k] == (keys[k], counts[keys[k]])
    requires Sorted(sorted, CountLe) && multiset(sorted) == multiset(entries)
    requires top == Take(sorted, 8)
    requires chips == ["all"] + seq(|top|, k requires 0 <= k < |top| => top[k].0)
    ensures forall i :: 1 <= i < |chips| ==> chips[i] in Counted(books)
    ensures NoDuplicates(chips[1..])
    ensures forall i, j :: 1 <= i < j < |chips| ==> Tally(books, chips[i]) >= Tally(books, chips[j])
    ensures forall s :: s in Counted(books) && s !in chips[1..] ==>
      |chips| == 9 && forall i :: 1 <= i < 9 ==> Tally(books, chips[i]) >= Tally(books, s)
  {
    SortedEntries(books, counts, keys, entries, sorted);
    ChipNames(sorted, top, chips);
    ChipsCounted(books, sorted, chips);
    ChipsDistinct(books, sorted, chips);
    ChipsOrdered(books, sorted, chips);
    ChipsComplete(books, sorted, chips);
  }

  /** Each sorted entry is a counted subject with its tally. */
  ghost predicate EntriesOk(books: seq<Work>, sorted: seq<(string, nat)>) {
    forall e :: e in sorted ==> e.0 in Counted(books) && e.1 == Tally(books, e.0)
  }

  /** The chips are `'all'` and then the names of the first (at most eight) sorted entries. */
  predicate ChipsOf(sorted: seq<(string, nat)>, chips: seq<string>) {
    && |chips| >= 1 && |chips| - 1 == (if |sorted| <= 8 then |sorted| else 8)
    && forall i :: 1 <= i < |chips| ==> chips[i] == sorted[i - 1].0
  }

  lemma SortedEntries(books: seq<Work>, counts: map<string, nat>, keys: seq<string>, entries: seq<(string, nat)>,
                      sorted: seq<(string, nat)>)
    requires Counts(counts, keys, Counted(books))
    requires |entries| == |keys| && forall k :: 0 <= k < |keys| ==> entries[k] == (keys[k], counts[keys[k]])
    requires multiset(sorted) == multiset(entries)
    ensures EntriesOk(books, sorted) && NoDuplicates(sorted)
    ensures forall s :: s in Counted(books) ==> exists p :: 0 <= p < |sorted| && sorted[p].0 == s
  {
    forall e | e in sorted
      ensures e.0 in Counted(books) && e.1 == Tally(books, e.0)
    {
      assert e in multiset(entries);
    }
    assert NoDuplicates(entries) by {
      forall i, j | 0 <= i < j < |entries|
        ensures entries[i] != entries[j]
      {
      }
    }
    PermutationNoDuplicates(sorted, entries);
    forall s | s in Counted(books)
      ensures exists p :: 0 <= p < |sorted| && sorted[p].0 == s
    {
      var k :| 0 <= k < |keys| && keys[k] == s;
      assert entries[k] in multiset(sorted);
      var p :| 0 <= p < |sorted| && sorted[p] == entries[k];
    }
  }

  lemma ChipNames(sorted: seq<(string, nat)>, top: seq<(string, nat)>, chips: seq<string>)
    requires top == Take(sorted, 8)
    requires chips == ["all"] + seq(|top|, k requires 0 <= k < |top| => top[k].0)
    ensures ChipsOf(sorted, chips)
  {
  }

  lemma ChipsCounted(books: seq<Work>, sorted: seq<(string, nat)>, chips: seq<string>)
    requires EntriesOk(books, sorted) && ChipsOf(sorted, chips)
    ensures forall i :: 1 <= i < |chips| ==> chips[i] in Counted(books)
  {
    forall i | 1 <= i < |chips|
      ensures chips[i] in Counted(books)
    {
      assert sorted[i - 1] in sorted;
    }
  }

  lemma ChipsDistinct(books: seq<Work>, sorted: seq<(string, nat)>, chips: seq<string>)
    requires EntriesOk(books, sorted) && NoDuplicates(sorted) && ChipsOf(sorted, chips)
    ensures NoDuplicates(chips[1..])
  {
    var names := chips[1..];
    forall i, j | 0 <= i < j < |names|
      ensures names[i] != names[j]
    {
      assert names[i] == sorted[i].0 && names[j] == sorted[j].0;
      assert sorted[i] in sorted && sorted[j] in sorted;
      assert sorted[i] != sorted[j];
    }
  }

  lemma ChipsOrdered(books: seq<Work>, sorted: seq<(string, nat)>, chips: seq<string>)
    requires EntriesOk(books, sorted) && Sorted(sorted, CountLe) && ChipsOf(sorted, chips)
    ensures forall i, j :: 1 <= i < j < |chips| ==> Tally(books, chips[i]) >= Tally(books, chips[j])
  {
    forall i, j | 1 <= i < j < |chips|
      ensures Tally(books, chips[i]) >= Tally(books, chips[j])
    {
      assert sorted[i - 1] in sorted && sorted[j - 1] in sorted;
      assert CountLe(sorted[i - 1], sorted[j - 1]);
    }
  }

  lemma ChipsComplete(books: seq<Work>, sorted: seq<(string, nat)>, chips: seq<string>)
    requires EntriesOk(books, sorted) && Sorted(sorted, CountLe) && ChipsOf(sorted, chips)
    requires forall s :: s in Counted(books) ==> exists p :: 0 <= p < |sorted| && sorted[p].0 == s
    ensures forall s :: s in Counted(books) && s !in chips[1..] ==>
      |chips| == 9 && forall i :: 1 <= i < 9 ==> Tally(books, chips[i]) >= Tally(books, s)
  {
    var names := chips[1..];
    forall s | s in Counted(books) && s !in names
      ensures |chips| == 9 && forall i :: 1 <= i < 9 ==> Tally(books, chips[i]) >= Tally(books, s)
    {
      var p :| 0 <= p < |sorted| && sorted[p].0 == s;
      forall q | 0 <= q < |names|
        ensures sorted[q].0 != s
      {
        assert names[q] == sorted[q].0;
      }
      assert p >= |names|;
      forall i | 1 <= i < 9
        ensures Tally(books, chips[i]) >= Tally(books, s)
      {
        assert sorted[i - 1] in sorted && sorted[p] in sorted;
        assert CountLe(sorted[i - 1], sorted[p]);
      }
    }
  }

  // ---------------------------------------------------------------------------
  // Adding the selected work to a list

  function AuthorNameList(w: Work): seq<string> {
    var authors := AuthorList(w);
    seq(|authors|, i requires 0 <= i < |authors| => authors[i].name)
  }

  /** The author line: the names joined by `", "`, or `'Unknown author'` when that is empty. */
  function AuthorText(w: Work): string {
    var joined := Join(AuthorNameList(w), ", ");
    if joined == "" then "Unknown author" else joined
  }

  /** The author line falls back exactly when there is no author or one author with an empty name. */
  lemma AuthorTextFallback(w: Work)
    ensures AuthorText(w) == "Unknown author" <==>
      (AuthorList(w) == [] || (|AuthorList(w)| == 1 && AuthorList(w)[0].name == ""))
      || Join(AuthorNameList(w), ", ") == "Unknown author"
  {
    JoinEmpty(AuthorNameList(w), ", ");
  }

  const ListDue := "2026-03-01"
  const ListFormat := "EPUB"

  function ListFields(title: string, author: string): seq<(string, Json)> {
    [("title", JStr(title)), ("author", JStr(author)), ("due", JStr(ListDue)), ("format", JStr(ListFormat))]
  }

  /** The list record: `id` first when there is one, then the four fixed fields. */
  function ListRecord(id: Option<string>, title: string, author: string): seq<(string, Json)> {
    if id.Some? then [("id", JStr(id.value))] + ListFields(title, author) else ListFields(title, author)
  }

  lemma ListFieldsFacts(title: string, author: string)
    ensures var fs := ListFields(title, author);
      && DistinctKeys(fs) && (forall i :: 0 <= i < |fs| ==> fs[i].0 != "id")
      && Lookup(fs, "title") == Some(JStr(title)) && Lookup(fs, "author") == Some(JStr(author))
      && Lookup(fs, "due") == Some(JStr(ListDue)) && Lookup(fs, "format") == Some(JStr(ListFormat))
  {
    var fs := ListFields(title, author);
    assert fs[0].0[0] == 't' && fs[1].0[0] == 'a' && fs[2].0[0] == 'd' && fs[3].0[0] == 'f';
    assert DistinctKeys(fs);
    LookupMember(fs, 0);
    LookupMember(fs, 1);
    LookupMember(fs, 2);
    LookupMember(fs, 3);
  }

  lemma ListRecordFacts(id: Option<string>, title: string, author: string)
    ensures var ms := ListRecord(id, title, author);
      && DistinctKeys(ms)
      && Lookup(ms, "id") == (if id.Some? then Some(JStr(id.value)) else None)
      && Lookup(ms, "title") == Some(JStr(title)) && Lookup(ms, "author") == Some(JStr(author))
      && Lookup(ms, "due") == Some(JStr(ListDue)) && Lookup(ms, "format") == Some(JStr(ListFormat))
  {
    if id.Some? {
      KeyedListFacts(id.value, title, author);
    } else {
      ListFieldsFacts(title, author);
    }
  }

  lemma KeyedListFacts(id: string, title: string, author: string)
    ensures var ms := ListRecord(Some(id), title, author);
      && DistinctKeys(ms) && Lookup(ms, "id") == Some(JStr(id))
      && Lookup(ms, "title") == Some(JStr(title)) && Lookup(ms, "author") == Some(JStr(author))
      && Lookup(ms, "due") == Some(JStr(ListDue)) && Lookup(ms, "format") == Some(JStr(ListFormat))
  {
    ListFieldsFacts(title, author);
    var fs := ListFields(title, author);
    KeyedRecord(id, fs);
  }

  /** Every member of a list record is a string. */
  lemma ListRecordStrings(id: Option<string>, title: string, author: string)
    ensures var ms := ListRecord(id, title, author);
      forall i :: 0 <= i < |ms| ==> ms[i].1.JStr?
  {
  }

  /** Putting an `id` member in front of members without one. */
  lemma KeyedRecord(id: string, fs: seq<(string, Json)>)
    requires DistinctKeys(fs) && forall i :: 0 <= i < |fs| ==> fs[i].0 != "id"
    ensures var ms := [("id", JStr(id))] + fs;
      && DistinctKeys(ms)
      && Lookup(ms, "id") == Some(JStr(id))
      && forall k :: Lookup(fs, k).Some? ==> Lookup(ms, k) == Lookup(fs, k)
  {
    var ms := [("id", JStr(id))] + fs;
    assert ms[1..] == fs;
    forall i, j | 0 <= i < j < |ms|
      ensures ms[i].0 != ms[j].0
    {
      assert ms[j] == fs[j - 1];
      if i > 0 {
        assert ms[i] == fs[i - 1];
      }
    }
  }

  /** An object whose members are all strings and whose keys are distinct is well formed. */
  lemma StringRecordWellFormed(ms: seq<(string, Json)>)
    requires DistinctKeys(ms) && forall i :: 0 <= i < |ms| ==> ms[i].1.JStr?
    ensures WellFormed(JObj(ms))
  {
  }

  /** `toListBook(book)`: the record the borrowed and purchased lists keep; a
      work without a key gets no `id` member, as `JSON.stringify` drops `undefined`. */
  function ToListBook(w: Work): (r: Json)
    ensures WellFormed(r)
    ensures Id(r) == if w.key.Some? then Some(JStr(w.key.value)) else None
    ensures Member(r, "title") == Some(JStr(w.title))
    ensures Member(r, "author") == Some(JStr(AuthorText(w)))
    ensures Member(r, "due") == Some(JStr(ListDue)) && Member(r, "format") == Some(JStr(ListFormat))
  {
    var ms := ListRecord(w.key, w.title, AuthorText(w));
    ListRecordFacts(w.key, w.title, AuthorText(w));
    ListRecordStrings(w.key, w.title, AuthorText(w));
    StringRecordWellFormed(ms);
    JObj(ms)
  }

  const BorrowNotice := "You need to log in before adding books to borrowed."
  const PurchaseNotice := "You need to log in before adding books to purchased."

  /** The state cells of the catalog page; `app` is the shared state provider. */
  class CatalogPage {
    const app: Provider
    var books: seq<Work>
    var loading: bool
    var searchTerm: string
    var sortBy: SortBy
    var activeBook: Option<Work>
    var authNotice: string
    var filters: Filters
    var activeChip: string

    constructor (app: Provider)
      ensures this.app == app
      ensures books == [] && loading && searchTerm == "" && sortBy == Relevant
      ensures activeBook == None && authNotice == "" && filters == NoFilters && activeChip == "all"
    {
      this.app := app;
      books := [];
      loading := true;
      searchTerm := "";
      sortBy := Relevant;
      activeBook := None;
      authNotice := "";
      filters := NoFilters;
      activeChip := "all";
    }

    /** A successful fetch: the first 40 works, or none when `works` is not an array. */
    method HandleResponse(works: Option<seq<Work>>)
      modifies this
      ensures books == if works.Some? then Take(works.value, 40) else []
      ensures |books| <= 40 && !loading
      ensures searchTerm == old(searchTerm) && sortBy == old(sortBy) && activeBook == old(activeBook)
      ensures authNotice == old(authNotice) && filters == old(filters) && activeChip == old(activeChip)
    {
      var list := if works.Some? then works.value else [];
      books := Take(list, 40);
      loading := false;
    }

    /** A failed fetch: no works. */
    method HandleFailure()
      modifies this
      ensures books == [] && !loading
      ensures searchTerm == old(searchTerm) && sortBy == old(sortBy) && activeBook == old(activeBook)
      ensures authNotice == old(authNotice) && filters == old(filters) && activeChip == old(activeChip)
    {
      books := [];
      loading := false;
    }

    /** Opening the details of a work clears the notice. */
    method SelectBook(w: Work)
      modifies this
      ensures activeBook == Some(w) && authNotice == ""
      ensures books == old(books) && loading == old(loading) && searchTerm == old(searchTerm)
      ensures sortBy == old(sortBy) && filters == old(filters) && activeChip == old(activeChip)
    {
      activeBook := Some(w);
      authNotice := "";
    }

    /** `handleFilterToggle(key)`. */
    method HandleFilterToggle(key: FilterKey)
      modifies this
      ensures filters == Toggle(old(filters), key)
      ensures books == old(books) && loading == old(loading) && searchTerm == old(searchTerm)
      ensures sortBy == old(sortBy) && activeBook == old(activeBook)
      ensures authNotice == old(authNotice) && activeChip == old(activeChip)
    {
      filters := Toggle(filters, key);
    }

    /** `handleAddBorrowed`: logged out, only the notice changes; with no work
        selected, nothing changes; otherwise the mapped work is added. */
    method HandleAddBorrowed()
      requires app.Synced()
      modifies this, app, app.store
      ensures !old(app.isLoggedIn) ==> authNotice == BorrowNotice
      ensures old(app.isLoggedIn) ==> authNotice == old(authNotice)
      ensures !old(app.isLoggedIn) || activeBook.None? ==>
        app.borrowedBooks == old(app.borrowedBooks) && app.store.items == old(app.store.items)
      ensures old(app.isLoggedIn) && activeBook.Some? ==>
        app.borrowedBooks == AddIfAbsent(old(app.borrowedBooks), ToListBook(activeBook.value))
      ensures app.isLoggedIn == old(app.isLoggedIn) && app.currentUser == old(app.currentUser)
      ensures app.purchasedBooks == old(app.purchasedBooks) && app.catalogEbooks == old(app.catalogEbooks)
      ensures books == old(books) && loading == old(loading) && searchTerm == old(searchTerm) && sortBy == old(sortBy)
      ensures activeBook == old(activeBook) && filters == old(filters) && activeChip == old(activeChip)
      ensures app.Synced()
    {
      if !app.isLoggedIn {
        authNotice := BorrowNotice;
        return;
      }
      if activeBook.None? {
        return;
      }
      var mapped := ToListBook(activeBook.value);
      app.AddBorrowedBook(mapped);
    }

    /** `handleAddPurchased`, the same guards for the purchased list. */
    method HandleAddPurchased()
      requires app.Synced()
      modifies this, app, app.store
      ensures !old(app.isLoggedIn) ==> authNotice == PurchaseNotice
      ensures old(app.isLoggedIn) ==> authNotice == old(authNotice)
      ensures !old(app.isLoggedIn) || activeBook.None? ==>
        app.purchasedBooks == old(app.purchasedBooks) && app.store.items == old(app.store.items)
      ensures old(app.isLoggedIn) && activeBook.Some? ==>
        app.purchasedBooks == AddIfAbsent(old(app.purchasedBooks), ToListBook(activeBook.value))
      ensures app.isLoggedIn == old(app.isLoggedIn) && app.currentUser == old(app.currentUser)
      ensures app.borrowedBooks == old(app.borrowedBooks) && app.catalogEbooks == old(app.catalogEbooks)
      ensures books == old(books) && loading == old(loading) && searchTerm == old(searchTerm) && sortBy == old(sortBy)
      ensures activeBook == old(activeBook) && filters == old(filters) && activeChip == old(activeChip)
      ensures app.Synced()
    {
      if !app.isLoggedIn {
        authNotice := PurchaseNotice;
        return;
      }
      if activeBook.None? {
        return;
      }
      var mapped := ToListBook(activeBook.value);
      app.AddPurchasedBook(mapped);
    }
  }
}
