/** The in-memory book collection behind the REST handlers of server.js: an
    ordered table of books and the counter that hands out their ids. */
module BookApi {
  import opened Text
  import opened Sequences

  datatype Book = Book(id: int, title: string, author: string)

  /** A field of a JSON body or of the query string: absent (undefined or
      null) or a string. */
  type Field = Option<string>

  /** The partial-update body: any subset of the two fields. */
  datatype Updates = Updates(title: Field, author: Field)

  /** The kind of answer a handler gives (200/201, 400, 409 or 404). */
  datatype Response =
    | Ok(book: Book)
    | ValidationFailed(details: seq<string>)
    | Conflict
    | NotFound(id: int)

  /** The body of a listing: the matching books and how many there are. */
  datatype Listing = Listing(count: nat, books: seq<Book>)

  /** The three records present at start-up; the counter starts at 4. */
  const SeedBooks: seq<Book> := [
    Book(1, "The Great Gatsby", "F. Scott Fitzgerald"),
    Book(2, "To Kill a Mockingbird", "Harper Lee"),
    Book(3, "1984", "George Orwell")
  ]
  const SeedNextId: int := 4

  /** JavaScript truthiness of a string field: present and not "". */
  predicate Truthy(f: Field) {
    f.Some? && f.value != ""
  }

  /** The validation test `!v || v.trim() === ''`. */
  predicate Blank(f: Field) {
    !Truthy(f) || Trim(f.value) == ""
  }

  const TitleRequired: string := "Title is required and cannot be empty"
  const AuthorRequired: string := "Author is required and cannot be empty"

  /** The messages of create and full replace: one per blank field, the
      title's first; empty exactly when both fields are usable. */
  function ValidationErrors(title: Field, author: Field): (errors: seq<string>)
    ensures |errors| == (if Blank(title) then 1 else 0) + (if Blank(author) then 1 else 0)
    ensures TitleRequired in errors <==> Blank(title)
    ensures AuthorRequired in errors <==> Blank(author)
    ensures Blank(title) ==> errors[0] == TitleRequired
    ensures errors == [] <==> !Blank(title) && !Blank(author)
  {
    MessagesDiffer();
    if Blank(title) && Blank(author) then [TitleRequired, AuthorRequired]
    else if Blank(title) then [TitleRequired]
    else if Blank(author) then [AuthorRequired]
    else []
  }

  lemma MessagesDiffer()
    ensures TitleRequired != AuthorRequired
  {
    assert TitleRequired[0] != AuthorRequired[0];
  }

  /** A field is blank exactly when it is absent or nothing but white space. */
  lemma BlankIffAbsentOrSpace(f: Field)
    ensures Blank(f) <==> f.None? || forall i :: 0 <= i < |f.value| ==> IsSpace(f.value[i])
  {
  }

  /** Two strings equal up to case are both blank or both usable. */
  lemma {:induction false} BlankIgnoresCase(s: string, t: string)
    requires Lower(s) == Lower(t)
    ensures Blank(Some(s)) <==> Blank(Some(t))
  {
    BlankIffAbsentOrSpace(Some(s));
    BlankIffAbsentOrSpace(Some(t));
    forall i | 0 <= i < |s| ensures IsSpace(s[i]) <==> IsSpace(t[i]) {
      assert LowerChar(s[i]) == Lower(s)[i] == Lower(t)[i] == LowerChar(t[i]);
      SpaceIgnoresCase(s[i], t[i]);
    }
  }

  ghost predicate HasId(books: seq<Book>, id: int) {
    exists i :: 0 <= i < |books| && books[i].id == id
  }

  ghost predicate IdsDistinct(books: seq<Book>) {
    forall i, j :: 0 <= i < j < |books| ==> books[i].id != books[j].id
  }

  /** `findBookById`: some book with that id, or `None` when there is none. */
  function FindBookById(books: seq<Book>, id: int): (r: Option<Book>)
    ensures r.None? <==> !HasId(books, id)
    ensures r.Some? ==> r.value in books && r.value.id == id
  {
    Find(books, (b: Book) => b.id == id)
  }

  /** `findBookIndex`: the index of the first book with that id, or -1. */
  function FindBookIndex(books: seq<Book>, id: int): (r: int)
    ensures -1 <= r < |books|
    ensures r == -1 <==> !HasId(books, id)
    ensures 0 <= r ==> books[r].id == id && forall j :: 0 <= j < r ==> books[j].id != id
  {
    FindIndex(books, (b: Book) => b.id == id)
  }

  /** With distinct ids the index found is the only one holding that id, and
      the book found by id is the one at that index. */
  lemma {:induction false} FindBookIndexUnique(books: seq<Book>, id: int, i: int)
    requires IdsDistinct(books)
    requires 0 <= i < |books| && books[i].id == id
    ensures FindBookIndex(books, id) == i
    ensures FindBookById(books, id) == Some(books[i])
  {
    FindAtFindIndex(books, (b: Book) => b.id == id);
  }

  /** The duplicate test of create: title and author both equal ignoring case. */
  predicate SameWork(b: Book, title: string, author: string) {
    Lower(b.title) == Lower(title) && Lower(b.author) == Lower(author)
  }

  ghost predicate IsDuplicate(books: seq<Book>, title: string, author: string) {
    exists i :: 0 <= i < |books| && SameWork(books[i], title, author)
  }

  /** The `books.find` of create: a stored book matching title and author. */
  function FindDuplicate(books: seq<Book>, title: string, author: string): (r: Option<Book>)
    ensures r.None? <==> !IsDuplicate(books, title, author)
    ensures r.Some? ==> r.value in books && SameWork(r.value, title, author)
  {
    Find(books, (b: Book) => SameWork(b, title, author))
  }

  /** The list filters: the lower-cased field contains the lower-cased query. */
  predicate AuthorMatches(b: Book, query: string) {
    Contains(Lower(b.author), Lower(query))
  }

  predicate TitleMatches(b: Book, query: string) {
    Contains(Lower(b.title), Lower(query))
  }

  /** A book passes the listing's filters; a falsy filter lets everything through. */
  predicate MatchesQuery(b: Book, author: Field, title: Field) {
    && (Truthy(author) ==> AuthorMatches(b, author.value))
    && (Truthy(title) ==> TitleMatches(b, title.value))
  }

  ghost predicate AllTrimmed(books: seq<Book>) {
    forall i :: 0 <= i < |books| ==> Trimmed(books[i].title) && Trimmed(books[i].author)
  }

  ghost predicate AllNonBlank(books: seq<Book>) {
    forall i :: 0 <= i < |books| ==> books[i].title != "" && books[i].author != ""
  }

  /** The table invariant: ids are distinct, each stored id was issued, the
      issued ids are exactly 1 up to the counter (exclusive), and no stored
      field has white space at either end. */
  ghost predicate StoreInvariant(books: seq<Book>, nextId: int, issued: set<int>) {
    && IdsDistinct(books)
    && (forall i :: 0 <= i < |books| ==> books[i].id in issued)
    && 1 <= nextId
    && (forall id :: id in issued <==> 1 <= id < nextId)
    && AllTrimmed(books)
  }

  /** The start-up table meets the invariant and has no blank field. */
  lemma SeedInvariant()
    ensures StoreInvariant(SeedBooks, SeedNextId, {1, 2, 3})
    ensures AllNonBlank(SeedBooks)
  {
    SeedTrimmed();
    assert forall i :: 0 <= i < |SeedBooks| ==> SeedBooks[i].id == i + 1;
  }

  lemma SeedTrimmed()
    ensures AllTrimmed(SeedBooks)
  {
    assert Trimmed(SeedBooks[0].title) && Trimmed(SeedBooks[0].author);
    assert Trimmed(SeedBooks[1].title) && Trimmed(SeedBooks[1].author);
    assert Trimmed(SeedBooks[2].title) && Trimmed(SeedBooks[2].author);
  }

  /** Under the invariant the counter is one past the largest id ever issued:
      every issued id is below it, and when any id was issued, the one just
      below it was. */
  lemma CounterFollowsIssued(books: seq<Book>, nextId: int, issued: set<int>)
    requires StoreInvariant(books, nextId, issued)
    ensures forall id :: id in issued ==> id < nextId
    ensures issued != {} ==> nextId - 1 in issued
    ensures issued == {} <==> nextId == 1
  {
    if nextId == 1 {
      assert forall id :: id !in issued;
    } else {
      assert nextId - 1 in issued;
    }
  }

  /** Under the invariant every stored id is below the counter. */
  lemma InvariantIdsBelow(books: seq<Book>, nextId: int, issued: set<int>)
    requires StoreInvariant(books, nextId, issued)
    ensures forall i :: 0 <= i < |books| ==> books[i].id < nextId
  {
  }

  /** Create's step: appending a trimmed record under the counter's value and
      bumping the counter keeps the invariant; the id was never issued. */
  lemma {:induction false} AppendKeepsInvariant(books: seq<Book>, nextId: int, issued: set<int>, b: Book)
    requires StoreInvariant(books, nextId, issued)
    requires b.id == nextId && Trimmed(b.title) && Trimmed(b.author)
    ensures b.id !in issued
    ensures StoreInvariant(books + [b], nextId + 1, issued + {b.id})
    ensures AllNonBlank(books) && b.title != "" && b.author != "" ==> AllNonBlank(books + [b])
  {
    var next := books + [b];
    assert forall k :: 0 <= k < |books| ==> next[k] == books[k];
    InvariantIdsBelow(books, nextId, issued);
  }

  /** Replace's and partial update's step: overwriting record `i` with a
      trimmed record of the same id keeps the invariant. */
  lemma {:induction false} UpdateKeepsInvariant(books: seq<Book>, nextId: int, issued: set<int>, i: int, b: Book)
    requires StoreInvariant(books, nextId, issued)
    requires 0 <= i < |books| && b.id == books[i].id && Trimmed(b.title) && Trimmed(b.author)
    ensures StoreInvariant(books[i := b], nextId, issued)
    ensures AllNonBlank(books) && b.title != "" && b.author != "" ==> AllNonBlank(books[i := b])
  {
  }

  /** Delete's step: splicing out record `i` keeps the invariant and the other
      records in order, and leaves no record with the removed id. */
  lemma {:induction false} RemoveKeepsInvariant(books: seq<Book>, nextId: int, issued: set<int>, i: int)
    requires StoreInvariant(books, nextId, issued)
    requires 0 <= i < |books|
    ensures var rest := books[..i] + books[i + 1..];
            && StoreInvariant(rest, nextId, issued)
            && (AllNonBlank(books) ==> AllNonBlank(rest))
            && !HasId(rest, books[i].id)
  {
    var rest := books[..i] + books[i + 1..];
    assert forall k :: 0 <= k < |rest| ==> rest[k] == books[if k < i then k else k + 1];
  }

  /** The answer of POST /books to a table and a counter value: validation
      first, with every blank field reported; then a case-insensitive
      duplicate of the untrimmed input is a conflict; otherwise a record
      under the counter's value with both fields trimmed. */
  function CreateOutcome(books: seq<Book>, nextId: int, title: Field, author: Field): (r: Response)
    ensures r.Ok? || r.ValidationFailed? || r.Conflict?
    ensures r.ValidationFailed? <==> Blank(title) || Blank(author)
    ensures r.ValidationFailed? ==> r.details == ValidationErrors(title, author)
    ensures r.Conflict? <==> !Blank(title) && !Blank(author) && IsDuplicate(books, title.value, author.value)
    ensures r.Ok? ==> r.book == Book(nextId, Trim(title.value), Trim(author.value))
  {
    var errors := ValidationErrors(title, author);
    if errors != [] then ValidationFailed(errors)
    else if FindDuplicate(books, title.value, author.value).Some? then Conflict
    else Ok(Book(nextId, Trim(title.value), Trim(author.value)))
  }

  /** The process-wide state: the ordered table `books` and the counter
      `nextId`. The ghost set `issued` records every id handed out so far. */
  class BookStore {
    var books: seq<Book>
    var nextId: int
    ghost var issued: set<int>

    ghost predicate Valid()
      reads this
    {
      StoreInvariant(books, nextId, issued)
    }

    /** Every stored title and author is non-empty. */
    ghost predicate NonBlank()
      reads this
    {
      AllNonBlank(books)
    }

    /** Start-up state: the three seed records and the counter at 4. */
    constructor ()
      ensures Valid() && NonBlank()
      ensures books == SeedBooks && nextId == SeedNextId && issued == {1, 2, 3}
    {
      SeedInvariant();
      books := SeedBooks;
      nextId := SeedNextId;
      issued := {1, 2, 3};
    }

    /** GET /books: the books passing both filters, in stored order, with
        their count; no filters gives the whole table. */
    function List(author: Field, title: Field): (r: Listing)
      reads this
      ensures r.count == |r.books|
      ensures IsSubsequence(r.books, books)
      ensures forall b :: b in r.books <==> b in books && MatchesQuery(b, author, title)
      ensures forall b :: multiset(r.books)[b] == if MatchesQuery(b, author, title) then multiset(books)[b] else 0
      ensures !Truthy(author) && !Truthy(title) ==> r.books == books
    {
      var byAuthor := if Truthy(author) then Filter(books, (b: Book) => AuthorMatches(b, author.value)) else books;
      var byTitle := if Truthy(title) then Filter(byAuthor, (b: Book) => TitleMatches(b, title.value)) else byAuthor;
      SubsequenceOfSelf(books);
      assert Truthy(author) && Truthy(title) ==> byTitle == Filter(books, (b: Book) => MatchesQuery(b, author, title)) by {
        if Truthy(author) && Truthy(title) {
          FilterTwice(books, (b: Book) => AuthorMatches(b, author.value), (b: Book) => TitleMatches(b, title.value),
                      (b: Book) => MatchesQuery(b, author, title));
        }
      }
      Listing(|byTitle|, byTitle)
    }

    /** GET /books/:id: the book with that id, or NotFound reporting the id. */
    function Get(id: int): (r: Response)
      reads this
      ensures r.Ok? || r.NotFound?
      ensures r.NotFound? <==> !HasId(books, id)
      ensures r.NotFound? ==> r.id == id
      ensures r.Ok? ==> r.book in books && r.book.id == id
    {
      match FindBookById(books, id)
      case None => NotFound(id)
      case Some(b) => Ok(b)
    }

    /** POST /books: answers as CreateOutcome for the table and counter
        before the call; on success appends the new record and bumps the
        counter, the id being one never issued before; otherwise nothing
        changes. */
    method Create(title: Field, author: Field) returns (r: Response)
      requires Valid()
      modifies this
      ensures Valid()
      ensures r == CreateOutcome(old(books), old(nextId), title, author)
      ensures r.Ok? ==>
                && books == old(books) + [r.book]
                && nextId == old(nextId) + 1
                && r.book.id !in old(issued)
                && issued == old(issued) + {r.book.id}
      ensures r.Ok? ==>
                && (forall id :: id in old(issued) ==> id < r.book.id)
                && (old(issued) != {} ==> r.book.id - 1 in old(issued))
      ensures !r.Ok? ==> books == old(books) && nextId == old(nextId) && issued == old(issued)
      ensures old(NonBlank()) ==> NonBlank()
    {
      CounterFollowsIssued(books, nextId, issued);
      var errors := ValidationErrors(title, author);
      if errors != [] {
        return ValidationFailed(errors);
      }
      if FindDuplicate(books, title.value, author.value).Some? {
        return Conflict;
      }
      var book := Book(nextId, Trim(title.value), Trim(author.value));
      Append(book);
      r := Ok(book);
    }

    /** `books.push` of a trimmed record under the counter's value, with
        `nextId++`: the id was never issued, and the invariant is kept. */
    method Append(book: Book)
      requires Valid() && book.id == nextId && Trimmed(book.title) && Trimmed(book.author)
      modifies this
      ensures Valid()
      ensures books == old(books) + [book] && nextId == old(nextId) + 1
      ensures book.id !in old(issued) && issued == old(issued) + {book.id}
      ensures old(NonBlank()) && book.title != "" && book.author != "" ==> NonBlank()
    {
      AppendKeepsInvariant(books, nextId, issued, book);
      nextId := nextId + 1;
      books := books + [book];
      issued := issued + {book.id};
    }

    /** PUT /books/:id: NotFound for an unknown id, then the create
        validation, then overwrite the record in place (no duplicate test). */
    method Replace(id: int, title: Field, author: Field) returns (r: Response)
      requires Valid()
      modifies this
      ensures Valid()
      ensures nextId == old(nextId) && issued == old(issued)
      ensures r.Ok? || r.ValidationFailed? || r.NotFound?
      ensures r.NotFound? <==> !HasId(old(books), id)
      ensures r.NotFound? ==> r.id == id
      ensures r.ValidationFailed? <==> HasId(old(books), id) && (Blank(title) || Blank(author))
      ensures r.ValidationFailed? ==> r.details == ValidationErrors(title, author)
      ensures r.Ok? ==>
                var i := FindBookIndex(old(books), id);
                && r.book == Book(id, Trim(title.value), Trim(author.value))
                && books == old(books)[i := r.book]
      ensures !r.Ok? ==> books == old(books)
      ensures old(NonBlank()) ==> NonBlank()
    {
      var i := FindBookIndex(books, id);
      if i == -1 {
        return NotFound(id);
      }
      var errors := ValidationErrors(title, author);
      if errors != [] {
        return ValidationFailed(errors);
      }
      var book := Book(id, Trim(title.value), Trim(author.value));
      Overwrite(i, book);
      r := Ok(book);
    }

    /** PATCH /books/:id: NotFound for an unknown id; otherwise each truthy
        field is trimmed and stored, the others kept. It never rejects. */
    method Patch(id: int, updates: Updates) returns (r: Response)
      requires Valid()
      modifies this
      ensures Valid()
      ensures nextId == old(nextId) && issued == old(issued)
      ensures r.Ok? || r.NotFound?
      ensures r.NotFound? <==> !HasId(old(books), id)
      ensures r.NotFound? ==> r.id == id
      ensures r.Ok? ==>
                var i := FindBookIndex(old(books), id);
                var was := old(books)[i];
                && r.book.id == id
                && r.book.title == (if Truthy(updates.title) then Trim(updates.title.value) else was.title)
                && r.book.author == (if Truthy(updates.author) then Trim(updates.author.value) else was.author)
                && books == old(books)[i := r.book]
      ensures !r.Ok? ==> books == old(books)
      ensures (&& old(NonBlank())
               && (Truthy(updates.title) ==> !Blank(updates.title))
               && (Truthy(updates.author) ==> !Blank(updates.author)))
              ==> NonBlank()
    {
      var i := FindBookIndex(books, id);
      if i == -1 {
        return NotFound(id);
      }
      var book := books[i];
      if Truthy(updates.title) {
        book := book.(title := Trim(updates.title.value));
      }
      if Truthy(updates.author) {
        book := book.(author := Trim(updates.author.value));
      }
      Overwrite(i, book);
      r := Ok(book);
    }

    /** `books[i] = book` for a trimmed record keeping the id stored there:
        the invariant is kept and nothing else changes. */
    method Overwrite(i: int, book: Book)
      requires Valid() && 0 <= i < |books| && book.id == books[i].id
      requires Trimmed(book.title) && Trimmed(book.author)
      modifies this
      ensures Valid()
      ensures books == old(books)[i := book] && nextId == old(nextId) && issued == old(issued)
      ensures old(NonBlank()) && book.title != "" && book.author != "" ==> NonBlank()
    {
      UpdateKeepsInvariant(books, nextId, issued, i, book);
      books := books[i := book];
    }

    /** DELETE /books/:id: NotFound for an unknown id; otherwise the record is
        spliced out, the rest keep their order, and the counter stays. */
    method Delete(id: int) returns (r: Response)
      requires Valid()
      modifies this
      ensures Valid()
      ensures nextId == old(nextId) && issued == old(issued)
      ensures r.Ok? || r.NotFound?
      ensures r.NotFound? <==> !HasId(old(books), id)
      ensures r.NotFound? ==> r.id == id
      ensures r.Ok? ==>
                var i := FindBookIndex(old(books), id);
                && r.book == old(books)[i]
                && books == old(books)[..i] + old(books)[i + 1..]
      ensures r.Ok? ==> r.book.id == id && !HasId(books, id)
      ensures !r.Ok? ==> books == old(books)
      ensures old(NonBlank()) ==> NonBlank()
    {
      var i := FindBookIndex(books, id);
      if i == -1 {
        return NotFound(id);
      }
      var deleted := books[i];
      RemoveKeepsInvariant(books, nextId, issued, i);
      books := books[..i] + books[i + 1..];
      r := Ok(deleted);
    }
  }
}
