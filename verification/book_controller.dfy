/** controllers/bookController.js: the home-page summary, book detail,
    create, delete and update, and the "checked" marking of genres on the
    book form. Each handler is one atomic step over a store snapshot. */
module BookController {
  import opened Tables
  import opened Validation
  import opened Catalog

  /** The request body of a book create or update. */
  datatype BookForm = BookForm(title: string, author: string, summary: string, isbn: string, genre: GenreInput)

  /** A genre as offered on the book form, with its "checked" mark. */
  datatype GenreChoice = GenreChoice(id: Id, genre: Genre, checked: bool)

  /** What a book mutation answers. `Saved` and `Deleted` are `flag: true`. */
  datatype Outcome =
    | Saved(id: Id, book: Book)
    | Rejected(errors: seq<FieldError>, candidate: Book, genres: seq<GenreChoice>)
    | InUse(target: Option<Book>, instances: map<Id, BookInstance>)
    | Deleted

  /** The `flag` field of the JSON answer. */
  predicate Flag(o: Outcome) {
    o.Saved? || o.Deleted?
  }

  /** The JSON of `index`, one field per fixed key. */
  datatype Summary = Summary(
    bookCount: nat,
    bookInstance: nat,
    bookInstanceAvailable: nat,
    author: nat,
    genre: nat)

  /** `index`: five counts of one snapshot, each the size of the part of the
      store its filter selects. */
  function Index(s: Store): (sum: Summary)
    requires WellFormed(s)
    ensures sum.bookCount == |s.books.rows|
    ensures sum.bookInstance == |s.instances.rows|
    ensures sum.bookInstanceAvailable == |Where(s.instances, IsAvailable)|
    ensures sum.author == |s.authors|
    ensures sum.genre == |s.genres.rows|
  {
    var all := (b: Book) => true;
    var allInstances := (bi: BookInstance) => true;
    var allGenres := (g: Genre) => true;
    assert Where(s.books, all) == s.books.rows;
    assert Where(s.instances, allInstances) == s.instances.rows;
    assert Where(s.genres, allGenres) == s.genres.rows;
    Summary(
      Count(s.books, all),
      Count(s.instances, allInstances),
      Count(s.instances, IsAvailable),
      |s.authors|,
      Count(s.genres, allGenres))
  }

  /** What `book_detail` renders: the book, its genres populated, and its
      copies. */
  datatype BookView = BookView(book: Book, genres: seq<(Id, Genre)>, instances: map<Id, BookInstance>)

  /** `book_detail`: a missing id is a 404. */
  function BookDetail(s: Store, id: Id): (r: Option<BookView>)
    ensures r.None? <==> id !in s.books.rows
    ensures r.Some? ==> r.value.book == s.books.rows[id]
    ensures r.Some? ==> forall k :: k in r.value.instances <==> k in s.instances.rows && s.instances.rows[k].book == id
    ensures r.Some? ==> forall k :: k in r.value.instances ==> r.value.instances[k] == s.instances.rows[k]
    ensures r.Some? ==> forall g :: g in r.value.genres ==> g.0 in r.value.book.genre && g.0 in s.genres.rows
    ensures r.Some? ==> forall g :: g in r.value.genres ==> g.1 == s.genres.rows[g.0]
    ensures r.Some? ==> forall k :: k in r.value.book.genre && k in s.genres.rows ==> (k, s.genres.rows[k]) in r.value.genres
  {
    if id !in s.books.rows then None
    else
      var b := s.books.rows[id];
      Some(BookView(b, Resolve(b.genre, s.genres), InstancesOf(s, id)))
  }

  /** The four `body(...).isLength({ min: 1 })` checks, in chain order. */
  function BookChecks(f: BookForm): seq<Check> {
    [ Check("title", "Title must not be empty.", NonEmpty(f.title)),
      Check("author", "Author must not be empty.", NonEmpty(f.author)),
      Check("summary", "Summary must not be empty.", NonEmpty(f.summary)),
      Check("isbn", "ISBN must not be empty", NonEmpty(f.isbn)) ]
  }

  predicate BookFormValid(f: BookForm) {
    NonEmpty(f.title) && NonEmpty(f.author) && NonEmpty(f.summary) && NonEmpty(f.isbn)
  }

  /** The chain reports an error exactly for each empty required field. */
  lemma BookErrorsExact(f: BookForm)
    ensures Errors(BookChecks(f)) == [] <==> BookFormValid(f)
    ensures ReportsExactly(Errors(BookChecks(f)), BookChecks(f))
  {
    var cs := BookChecks(f);
    assert (forall i :: 0 <= i < |cs| ==> cs[i].passed) <==> BookFormValid(f) by {
      assert cs[0].passed && cs[1].passed && cs[2].passed && cs[3].passed <==> BookFormValid(f);
    }
    assert FieldsDistinct(cs) by {
      assert |cs[0].field| == 5 && |cs[1].field| == 6 && |cs[2].field| == 7 && |cs[3].field| == 4;
    }
    ErrorsReportExactly(cs);
  }

  /** The four text fields of `b` are the trimmed and escaped inputs. */
  predicate SanitisedFields(env: Sanitizers, f: BookForm, b: Book) {
    && b.title == TrimEscape(env, f.title) && b.author == TrimEscape(env, f.author)
    && b.summary == TrimEscape(env, f.summary) && b.isbn == TrimEscape(env, f.isbn)
  }

  /** The book `book_create_post` builds: `sanitizeBody('*').trim().escape()`
      reaches every field, each genre element included, and
      `sanitizeBody('genre.*').escape()` escapes the genre elements once
      more. */
  function CreateCandidate(env: Sanitizers, f: BookForm): (b: Book)
    ensures SanitisedFields(env, f, b)
    ensures |b.genre| == |GenreArray(f.genre)|
    ensures forall i :: 0 <= i < |b.genre| ==> b.genre[i] == env.escape(TrimEscape(env, GenreArray(f.genre)[i]))
  {
    var gs := GenreArray(f.genre);
    Book(TrimEscape(env, f.title), TrimEscape(env, f.author), TrimEscape(env, f.summary), TrimEscape(env, f.isbn),
         seq(|gs|, i requires 0 <= i < |gs| => env.escape(TrimEscape(env, gs[i]))))
  }

  /** The book `book_update_post` builds: the four text fields and each
      genre element are trimmed and escaped once. */
  function UpdateCandidate(env: Sanitizers, f: BookForm): (b: Book)
    ensures SanitisedFields(env, f, b)
    ensures |b.genre| == |GenreArray(f.genre)|
    ensures forall i :: 0 <= i < |b.genre| ==> b.genre[i] == TrimEscape(env, GenreArray(f.genre)[i])
  {
    var gs := GenreArray(f.genre);
    Book(TrimEscape(env, f.title), TrimEscape(env, f.author), TrimEscape(env, f.summary), TrimEscape(env, f.isbn),
         seq(|gs|, i requires 0 <= i < |gs| => TrimEscape(env, gs[i])))
  }

  /** `indexOf` on the Mongoose array `book.genre`, which compares ids by
      their string value: the first position of `x`, or -1. */
  function IndexOf(xs: seq<Id>, x: Id): (i: int)
    ensures -1 <= i < |xs|
    ensures i >= 0 ==> xs[i] == x && forall j :: 0 <= j < i ==> xs[j] != x
    ensures i == -1 <==> x !in xs
  {
    if xs == [] then -1
    else if xs[0] == x then 0
    else
      var j := IndexOf(xs[1..], x);
      if j == -1 then -1 else j + 1
  }

  /** The fetched genre list offered with every genre marked checked exactly
      when its id is among `chosen`. */
  predicate MarksSelection(cs: seq<GenreChoice>, genres: Table<Genre>, chosen: seq<Id>)
    requires Tables.Valid(genres)
  {
    && |cs| == |genres.order|
    && forall i :: 0 <= i < |cs| ==>
         && cs[i].id == genres.order[i]
         && cs[i].genre == genres.rows[genres.order[i]]
         && (cs[i].checked <==> genres.order[i] in chosen)
  }

  /** The marking loop of `book_create_post` and `book_update_post`: a
      fetched genre is checked when `book.genre.indexOf(genre._id) > -1`. */
  function MarkChecked(genres: Table<Genre>, chosen: seq<Id>): (cs: seq<GenreChoice>)
    requires Tables.Valid(genres)
    ensures MarksSelection(cs, genres, chosen)
  {
    var all := Entries(genres);
    seq(|all|, i requires 0 <= i < |all| => GenreChoice(all[i].0, all[i].1, IndexOf(chosen, all[i].0) > -1))
  }

  /** The nested marking loops of `book_update_get`, which compare the
      fetched genres with the book's populated genres by id. */
  method MarkCheckedByScan(all: seq<(Id, Genre)>, bookGenres: seq<(Id, Genre)>) returns (cs: seq<GenreChoice>)
    ensures |cs| == |all|
    ensures forall i :: 0 <= i < |cs| ==> cs[i].id == all[i].0 && cs[i].genre == all[i].1
    ensures forall i :: 0 <= i < |cs| ==>
              (cs[i].checked <==> exists j :: 0 <= j < |bookGenres| && bookGenres[j].0 == all[i].0)
  {
    cs := [];
    var a := 0;
    while a < |all|
      invariant 0 <= a <= |all|
      invariant |cs| == a
      invariant forall i :: 0 <= i < a ==> cs[i].id == all[i].0 && cs[i].genre == all[i].1
      invariant forall i :: 0 <= i < a ==>
                  (cs[i].checked <==> exists j :: 0 <= j < |bookGenres| && bookGenres[j].0 == all[i].0)
    {
      var checked := false;
      var b := 0;
      while b < |bookGenres|
        invariant 0 <= b <= |bookGenres|
        invariant checked <==> exists j :: 0 <= j < b && bookGenres[j].0 == all[a].0
      {
        if all[a].0 == bookGenres[b].0 {
          checked := true;
        }
        b := b + 1;
      }
      cs := cs + [GenreChoice(all[a].0, all[a].1, checked)];
      a := a + 1;
    }
  }

  /** What `book_update_get` renders. */
  datatype BookFormView = BookFormView(book: Book, genres: seq<GenreChoice>)

  /** `book_update_get`: a missing id is a 404; otherwise every stored genre
      is offered, checked exactly when the book lists it. */
  method BookUpdateGet(s: Store, id: Id) returns (r: Option<BookFormView>)
    requires WellFormed(s)
    ensures r.None? <==> id !in s.books.rows
    ensures r.Some? ==> r.value.book == s.books.rows[id]
    ensures r.Some? ==> MarksSelection(r.value.genres, s.genres, s.books.rows[id].genre)
  {
    if id !in s.books.rows {
      return None;
    }
    var book := s.books.rows[id];
    var populated := Resolve(book.genre, s.genres);
    var all := Entries(s.genres);
    var cs := MarkCheckedByScan(all, populated);
    forall i | 0 <= i < |cs|
      ensures cs[i].checked <==> all[i].0 in book.genre
    {
      var k := all[i].0;
      if k in book.genre {
        assert (k, s.genres.rows[k]) in populated;
        var j :| 0 <= j < |populated| && populated[j] == (k, s.genres.rows[k]);
        assert populated[j].0 == k;
      }
      if exists j :: 0 <= j < |populated| && populated[j].0 == k {
        var j :| 0 <= j < |populated| && populated[j].0 == k;
        assert populated[j] in populated;
      }
    }
    return Some(BookFormView(book, cs));
  }

  /** The store and outcome a rejected form leaves: nothing written. */
  predicate RejectedUnchanged(s: Store, r: (Store, Outcome), f: BookForm)
  {
    r.1.Rejected? ==>
      && r.0 == s && r.1.errors != []
      && r.1.errors == Errors(BookChecks(f)) && ReportsExactly(r.1.errors, BookChecks(f))
  }

  /** `book_create_post`: a form failing any required check writes nothing;
      a valid one adds exactly one book, under a fresh id, holding the
      sanitised fields with `genre` always an array. */
  function BookCreatePost(env: Sanitizers, s: Store, f: BookForm, newId: Id): (r: (Store, Outcome))
    requires WellFormed(s) && newId !in s.books.rows
    ensures WellFormed(r.0)
    ensures r.1.Saved? || r.1.Rejected?
    ensures r.1.Saved? <==> BookFormValid(f)
    ensures Flag(r.1) <==> BookFormValid(f)
    ensures RejectedUnchanged(s, r, f)
    ensures r.1.Rejected? ==> MarksSelection(r.1.genres, s.genres, r.1.candidate.genre)
    ensures r.1.Saved? ==>
              && r.1.id == newId
              && r.0.books.rows == s.books.rows[newId := r.1.book]
              && |r.0.books.rows| == |s.books.rows| + 1
              && r.0.instances == s.instances && r.0.genres == s.genres && r.0.authors == s.authors
    ensures r.1.Rejected? ==> r.1.candidate == CreateCandidate(env, f)
    ensures r.1.Saved? ==> r.1.book == CreateCandidate(env, f)
  {
    var book := CreateCandidate(env, f);
    BookErrorsExact(f);
    if !BookFormValid(f) then
      (s, Rejected(Errors(BookChecks(f)), book, MarkChecked(s.genres, book.genre)))
    else
      (s.(books := Insert(s.books, newId, book)), Saved(newId, book))
  }

  /** `book_delete_post`: a book that any copy references is not removed and
      the answer lists exactly those copies; otherwise exactly that id is
      removed (an id already gone is no error). */
  function BookDeletePost(s: Store, id: Id): (r: (Store, Outcome))
    requires WellFormed(s)
    ensures WellFormed(r.0)
    ensures r.1.InUse? || r.1.Deleted?
    ensures r.1.InUse? <==> exists k :: k in s.instances.rows && s.instances.rows[k].book == id
    ensures Flag(r.1) <==> forall k :: k in s.instances.rows ==> s.instances.rows[k].book != id
    ensures r.1.InUse? ==>
              && r.0 == s
              && r.1.target == Find(s.books, id)
              && (forall k :: k in r.1.instances <==> k in s.instances.rows && s.instances.rows[k].book == id)
              && (forall k :: k in r.1.instances ==> r.1.instances[k] == s.instances.rows[k])
    ensures r.1.Deleted? ==>
              && r.0.books.rows == s.books.rows - {id}
              && r.0.instances == s.instances && r.0.genres == s.genres && r.0.authors == s.authors
  {
    var dependents := InstancesOf(s, id);
    if dependents != map[] then
      assert exists k :: k in dependents;
      (s, InUse(Find(s.books, id), dependents))
    else
      assert forall k :: k in s.instances.rows ==> k !in dependents;
      (s.(books := Remove(s.books, id)), Deleted)
  }

  /** `book_update_post`: a form failing any required check writes nothing;
      a valid one replaces the book stored under the path id, which keeps
      its id, and touches nothing else. The answer is `flag: true` even
      when no book has that id, in which case nothing changes. */
  function BookUpdatePost(env: Sanitizers, s: Store, id: Id, f: BookForm): (r: (Store, Outcome))
    requires WellFormed(s)
    ensures WellFormed(r.0)
    ensures r.1.Saved? || r.1.Rejected?
    ensures r.1.Saved? <==> BookFormValid(f)
    ensures Flag(r.1) <==> BookFormValid(f)
    ensures RejectedUnchanged(s, r, f)
    ensures r.1.Rejected? ==> MarksSelection(r.1.genres, s.genres, r.1.candidate.genre)
    ensures r.1.Saved? ==>
              && r.1.id == id
              && r.0.books.order == s.books.order
              && (id in s.books.rows ==> r.0.books.rows == s.books.rows[id := r.1.book])
              && (id !in s.books.rows ==> r.0 == s)
              && r.0.instances == s.instances && r.0.genres == s.genres && r.0.authors == s.authors
    ensures r.1.Rejected? ==> r.1.candidate == UpdateCandidate(env, f)
    ensures r.1.Saved? ==> r.1.book == UpdateCandidate(env, f)
  {
    var book := UpdateCandidate(env, f);
    BookErrorsExact(f);
    if !BookFormValid(f) then
      (s, Rejected(Errors(BookChecks(f)), book, MarkChecked(s.genres, book.genre)))
    else
      (s.(books := Replace(s.books, id, book)), Saved(id, book))
  }

  /** Create and update normalise the genre input the same way: both store
      one element per normalised input element. */
  lemma GenreShapeSharedByCreateAndUpdate(env: Sanitizers, s: Store, id: Id, f: BookForm, newId: Id)
    requires WellFormed(s) && newId !in s.books.rows && BookFormValid(f)
    ensures |BookCreatePost(env, s, f, newId).1.book.genre| == |BookUpdatePost(env, s, id, f).1.book.genre|
    ensures f.genre.Absent? ==> BookCreatePost(env, s, f, newId).1.book.genre == []
    ensures f.genre.Single? ==> |BookUpdatePost(env, s, id, f).1.book.genre| == 1
    ensures f.genre.Many? ==> |BookCreatePost(env, s, f, newId).1.book.genre| == |f.genre.values|
  {
  }

  /** Create then detail: a saved book is found under its new id, with no
      copies yet when none referenced that id. */
  lemma CreateThenDetail(env: Sanitizers, s: Store, f: BookForm, newId: Id)
    requires WellFormed(s) && newId !in s.books.rows && BookFormValid(f)
    ensures var r := BookCreatePost(env, s, f, newId);
            && BookDetail(r.0, newId).Some?
            && BookDetail(r.0, newId).value.book == r.1.book
            && BookDetail(r.0, newId).value.instances == InstancesOf(s, newId)
  {
    var r := BookCreatePost(env, s, f, newId);
    assert r.0.instances == s.instances;
  }

  /** After a delete that went through, the detail page of that id is a 404. */
  lemma DeletedBookNotFound(s: Store, id: Id)
    requires WellFormed(s)
    requires BookDeletePost(s, id).1.Deleted?
    ensures BookDetail(BookDeletePost(s, id).0, id).None?
  {
  }

  /** Deleting twice is deleting once: the second call also succeeds and
      changes nothing. */
  lemma BookDeleteIdempotent(s: Store, id: Id)
    requires WellFormed(s)
    requires BookDeletePost(s, id).1.Deleted?
    ensures var s1 := BookDeletePost(s, id).0;
            BookDeletePost(s1, id) == (s1, Deleted)
  {
  }

  /** Update then detail: the stored book is the sanitised candidate, under
      the same id. */
  lemma UpdateThenDetail(env: Sanitizers, s: Store, id: Id, f: BookForm)
    requires WellFormed(s) && id in s.books.rows && BookFormValid(f)
    ensures var r := BookUpdatePost(env, s, id, f);
            BookDetail(r.0, id).Some? && BookDetail(r.0, id).value.book == r.1.book
  {
  }
}
