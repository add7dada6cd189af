/** Client runs against any store that the handlers have kept valid, proved
    only from the contracts of BookApi.BookStore: the behaviour the service is
    meant to show, and two consequences of the code as written. */
module Scenarios {
  import opened Text
  import opened Sequences
  import opened BookApi

  /** A title behind one space trims to itself and is usable. */
  lemma PaddedTitleUsable(t: string)
    requires t != [] && Trimmed(t)
    ensures Trim(" " + t) == t && !Blank(Some(" " + t))
  {
    TrimSkipsLeadingSpace(" " + t);
    assert (" " + t)[1..] == t;
    TrimOfTrimmed(t);
  }

  /** No trimmed title equals, up to case, a title starting with a space, so
      such a title is never a duplicate. */
  lemma PaddedNeverDuplicate(books: seq<Book>, t: string, a: string)
    requires AllTrimmed(books)
    ensures !IsDuplicate(books, " " + t, a)
  {
    var p := " " + t;
    forall i | 0 <= i < |books| ensures Lower(books[i].title) != Lower(p) {
      var s := books[i].title;
      assert Lower(p)[0] == LowerChar(' ') == ' ';
      if s != [] {
        assert Lower(s)[0] == LowerChar(s[0]);
        assert Trimmed(s);
      }
    }
  }

  /** Two non-empty trimmed strings are usable input and their own trims. */
  lemma FieldsUsable(title: string, author: string)
    requires title != [] && Trimmed(title) && author != [] && Trimmed(author)
    ensures Trim(title) == title && !Blank(Some(title))
    ensures Trim(author) == author && !Blank(Some(author))
  {
    StoredFieldUsable(title);
    StoredFieldUsable(author);
    TrimOfTrimmed(title);
    TrimOfTrimmed(author);
  }

  /** A stored field of a store without blank fields is usable input. */
  lemma StoredFieldUsable(s: string)
    requires s != [] && Trimmed(s)
    ensures !Blank(Some(s))
  {
    TrimOfTrimmed(s);
  }

  /** A blank title and a blank author (absent, empty or white space) are
      both reported, title first, and nothing changes. */
  method BlankFieldsReportBoth(store: BookStore, title: Field, author: Field) returns (r: Response)
    requires store.Valid() && Blank(title) && Blank(author)
    modifies store
    ensures r == ValidationFailed([TitleRequired, AuthorRequired])
    ensures store.books == old(store.books) && store.nextId == old(store.nextId)
  {
    assert ValidationErrors(title, author) == [TitleRequired] + [AuthorRequired];
    r := store.Create(title, author);
  }

  /** Submitting a stored record again, in any letter case, is a conflict,
      and nothing changes. */
  method ResubmitConflicts(store: BookStore, i: int, title: string, author: string) returns (r: Response)
    requires store.Valid() && 0 <= i < |store.books|
    requires store.books[i].title != "" && store.books[i].author != ""
    requires Lower(title) == Lower(store.books[i].title) && Lower(author) == Lower(store.books[i].author)
    modifies store
    ensures r == Conflict
    ensures store.books == old(store.books) && store.nextId == old(store.nextId)
  {
    var b := store.books[i];
    StoredFieldUsable(b.title);
    StoredFieldUsable(b.author);
    BlankIgnoresCase(title, b.title);
    BlankIgnoresCase(author, b.author);
    assert SameWork(store.books[i], title, author);
    r := store.Create(Some(title), Some(author));
  }

  /** As written: the duplicate test compares the untrimmed input, so a stored
      title given behind a space passes it and, once trimmed, is stored as a
      second record with the same title and author. */
  method PaddedTitleSlipsPastDuplicateCheck(store: BookStore, i: int) returns (r: Response)
    requires store.Valid() && 0 <= i < |store.books|
    requires store.books[i].title != "" && store.books[i].author != ""
    modifies store
    ensures r == Ok(Book(old(store.nextId), old(store.books[i].title), old(store.books[i].author)))
    ensures store.books == old(store.books) + [r.book]
    ensures var last := |store.books| - 1;
            && i < last
            && store.books[i].title == store.books[last].title
            && store.books[i].author == store.books[last].author
  {
    var b := store.books[i];
    assert Trimmed(b.title) && Trimmed(b.author);
    PaddedTitleUsable(b.title);
    StoredFieldUsable(b.author);
    TrimOfTrimmed(b.author);
    PaddedNeverDuplicate(store.books, b.title, b.author);
    r := store.Create(Some(" " + b.title), Some(b.author));
  }

  /** Ids come from the counter: after a record is deleted, a new record
      never gets its id, nor the id of any record stored before. (An id that
      was never issued can still be handed out next.) */
  method IdsNeverReused(store: BookStore, id: int, title: Field, author: Field) returns (gone: Response, made: Response)
    requires store.Valid()
    modifies store
    ensures gone.Ok? <==> HasId(old(store.books), id)
    ensures gone.Ok? && made.Ok? ==> made.book.id != id
    ensures made.Ok? ==> !HasId(old(store.books), made.book.id)
  {
    ghost var before, issued := store.books, store.issued;
    assert forall k :: 0 <= k < |before| ==> before[k].id in issued;
    gone := store.Delete(id);
    assert store.issued == issued;
    made := store.Create(title, author);
    if made.Ok? {
      assert made.book.id !in issued;
      assert HasId(before, id) ==> id in issued;
    }
  }

  /** After a delete the id is not found. */
  method DeletedIdNotFound(store: BookStore, id: int) returns (gone: Response, r: Response)
    requires store.Valid()
    modifies store
    ensures r == NotFound(id)
  {
    gone := store.Delete(id);
    r := store.Get(id);
  }

  /** A get after a successful full replace returns the new record. */
  method ReplaceThenGet(store: BookStore, id: int, title: Field, author: Field) returns (put: Response, got: Response)
    requires store.Valid()
    modifies store
    ensures put.Ok? ==> got == put
    ensures put.NotFound? ==> got == NotFound(id)
  {
    var i := FindBookIndex(store.books, id);
    put := store.Replace(id, title, author);
    if put.Ok? {
      FindBookIndexUnique(store.books, id, i);
    }
    got := store.Get(id);
  }

  /** A partial update with an empty title and no author is falsy throughout:
      it answers what a get would and changes nothing. */
  method EmptyPatchChangesNothing(store: BookStore, id: int) returns (r: Response)
    requires store.Valid()
    modifies store
    ensures r == old(store.Get(id))
    ensures store.books == old(store.books)
  {
    var i := FindBookIndex(store.books, id);
    if i != -1 {
      FindBookIndexUnique(store.books, id, i);
    }
    r := store.Patch(id, Updates(Some(""), None));
  }

  /** As written: a whitespace-only title in a partial update is truthy, so it
      is stored trimmed, that is as "", and the table then holds a blank title
      that create and replace would have refused. */
  method BlankPatchEmptiesTitle(store: BookStore, id: int, w: string) returns (r: Response)
    requires store.Valid() && HasId(store.books, id)
    requires w != [] && forall k :: 0 <= k < |w| ==> IsSpace(w[k])
    modifies store
    ensures r.Ok? && r.book.id == id && r.book.title == ""
    ensures !store.NonBlank()
  {
    var i := FindBookIndex(store.books, id);
    r := store.Patch(id, Updates(Some(w), None));
    assert store.books[i].title == "";
  }

  /** Every stored record is listed when filtered by its own author and title. */
  method ListedByOwnFields(store: BookStore, i: int) returns (l: Listing)
    requires 0 <= i < |store.books|
    ensures store.books[i] in l.books
  {
    var b := store.books[i];
    ContainsSelfAndEmpty(Lower(b.author));
    ContainsSelfAndEmpty(Lower(b.title));
    l := store.List(Some(b.author), Some(b.title));
  }
}

/** The same runs against the store as it is at start-up, with the three seed
    records. Each fact about concrete strings is proved on its own. */
module SeedScenarios {
  import opened Text
  import opened Sequences
  import opened BookApi
  import opened Scenarios

  /** Creating the seed record "1984" by George Orwell again is a conflict. */
  method SeedDuplicateConflicts() returns (r: Response)
    ensures r == Conflict
  {
    var store := new BookStore();
    r := ResubmitConflicts(store, 2, "1984", "George Orwell");
  }

  /** Neither of the first two seed records has the title "1984". */
  lemma OrwellNotInFirstTwo()
    ensures !IsDuplicate(SeedBooks[..2], "1984", "George Orwell")
  {
    var first := SeedBooks[..2];
    forall i | 0 <= i < |first| ensures Lower(first[i].title) != Lower("1984") {
      assert |Lower(first[i].title)| != |Lower("1984")|;
    }
  }

  /** Deleting id 3 from the start-up table removes "1984", the last record. */
  method DeleteOrwell(store: BookStore) returns (gone: Response)
    requires store.Valid() && store.books == SeedBooks && store.nextId == SeedNextId
    modifies store
    ensures store.Valid() && store.books == SeedBooks[..2] && store.nextId == SeedNextId
    ensures gone == Ok(Book(3, "1984", "George Orwell"))
  {
    SeedInvariant();
    FindBookIndexUnique(SeedBooks, 3, 2);
    gone := store.Delete(3);
  }

  /** After record 3 is deleted, creating it again gives it id 4, not 3. */
  method SeedIdsNotReused() returns (gone: Response, made: Response)
    ensures gone == Ok(Book(3, "1984", "George Orwell"))
    ensures made == Ok(Book(4, "1984", "George Orwell"))
  {
    var store := new BookStore();
    gone := DeleteOrwell(store);
    var title, author := "1984", "George Orwell";
    FieldsUsable(title, author);
    OrwellNotInFirstTwo();
    made := store.Create(Some(title), Some(author));
  }

  /** Deleting id 999 is not found and leaves the table and the counter. */
  method SeedDeleteMissing() returns (r: Response, books: seq<Book>, nextId: int)
    ensures r == NotFound(999)
    ensures books == SeedBooks && nextId == SeedNextId
  {
    var store := new BookStore();
    r := store.Delete(999);
    books, nextId := store.books, store.nextId;
  }

  /** A full replace of id 2 by "X" and "Y" is what a get of id 2 returns. */
  method SeedReplaceThenGet() returns (got: Response)
    ensures got == Ok(Book(2, "X", "Y"))
  {
    var store := new BookStore();
    SeedInvariant();
    FindBookIndexUnique(SeedBooks, 2, 1);
    FieldsUsable("X", "Y");
    var put := store.Replace(2, Some("X"), Some("Y"));
    assert put == Ok(Book(2, "X", "Y"));
    assert store.books == SeedBooks[1 := Book(2, "X", "Y")];
    FindBookIndexUnique(store.books, 2, 1);
    got := store.Get(2);
  }

  /** Only Harper Lee's name contains "lee", ignoring case. */
  lemma OnlyLeeMatches()
    ensures forall i :: 0 <= i < |SeedBooks| ==> (AuthorMatches(SeedBooks[i], "lee") <==> i == 1)
  {
    assert Lower("lee") == "lee";
    FirstCharAbsent(Lower("F. Scott Fitzgerald"), "lee");
    FirstCharAbsent(Lower("George Orwell"), "lee");
    assert OccursAt(Lower("Harper Lee"), "lee", 7);
  }

  /** Listing by author "lee" gives exactly the Harper Lee record. */
  method SeedAuthorFilterLee() returns (l: Listing)
    ensures l.count == 1 && l.books == [Book(2, "To Kill a Mockingbird", "Harper Lee")]
  {
    var store := new BookStore();
    l := store.List(Some("lee"), None);
    ListedOnlyLee(l.books);
  }

  /** A sequence holding each seed record whose author contains "lee" as
      often as the seed table does, and nothing else, is the Harper Lee
      record alone. */
  lemma ListedOnlyLee(r: seq<Book>)
    requires forall b :: multiset(r)[b] == if AuthorMatches(b, "lee") then multiset(SeedBooks)[b] else 0
    ensures r == [SeedBooks[1]]
  {
    OnlyLeeMatches();
    var lee := SeedBooks[1];
    assert multiset(SeedBooks)[lee] == 1;
    forall b ensures multiset(r)[b] == multiset{lee}[b] {
      if b != lee && AuthorMatches(b, "lee") {
        assert b !in SeedBooks;
      }
    }
    assert multiset(r) == multiset{lee};
    assert r[0] in multiset(r);
  }
}
