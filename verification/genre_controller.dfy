/** controllers/genreController.js: the name-ordered list, detail, the
    find-or-create on create, the guarded delete and the update. */
module GenreController {
  import opened Tables
  import opened Text
  import opened Validation
  import opened Catalog

  /** What a genre mutation answers. */
  datatype Outcome =
    | Created(id: Id, genre: Genre)
    | Reused(id: Id, genre: Genre)
    | Rejected(errors: seq<FieldError>, candidate: Genre)
    | Updated(id: Id, genre: Genre)
    | Missing
    | InUse(target: Option<Genre>, books: map<Id, Book>)
    | Deleted

  predicate SortedByName(es: seq<(Id, Genre)>) {
    forall i, j :: 0 <= i < j < |es| ==> NameLe(es[i].1.name, es[j].1.name)
  }

  /** `e` placed before the first entry whose name it does not exceed. */
  function InsertByName(e: (Id, Genre), es: seq<(Id, Genre)>): (r: seq<(Id, Genre)>)
    ensures multiset(r) == multiset(es) + multiset{e}
  {
    if es == [] then [e]
    else if NameLe(e.1.name, es[0].1.name) then [e] + es
    else
      assert es == [es[0]] + es[1..];
      [es[0]] + InsertByName(e, es[1..])
  }

  /** An entry no later by name than every entry of a sorted sequence can
      head it. */
  lemma ConsSorted(h: (Id, Genre), rest: seq<(Id, Genre)>)
    requires SortedByName(rest)
    requires forall x :: x in rest ==> NameLe(h.1.name, x.1.name)
    ensures SortedByName([h] + rest)
  {
    var r := [h] + rest;
    forall i, j | 0 <= i < j < |r|
      ensures NameLe(r[i].1.name, r[j].1.name)
    {
      assert r[j] == rest[j - 1];
      if i == 0 {
        assert rest[j - 1] in rest;
      } else {
        assert r[i] == rest[i - 1];
      }
    }
  }

  lemma {:induction false} InsertByNameSorted(e: (Id, Genre), es: seq<(Id, Genre)>)
    requires SortedByName(es)
    ensures SortedByName(InsertByName(e, es))
  {
    if es == [] {
    } else if NameLe(e.1.name, es[0].1.name) {
      forall x | x in es
        ensures NameLe(e.1.name, x.1.name)
      {
        var j :| 0 <= j < |es| && es[j] == x;
        if j > 0 {
          NameLeTransitive(e.1.name, es[0].1.name, es[j].1.name);
        }
      }
      ConsSorted(e, es);
    } else {
      NameLeTotal(e.1.name, es[0].1.name);
      var tail := es[1..];
      var rest := InsertByName(e, tail);
      InsertByNameSorted(e, tail);
      forall x | x in rest
        ensures NameLe(es[0].1.name, x.1.name)
      {
        assert x in multiset(rest);
        if x != e {
          assert x in multiset(tail);
          var k :| 0 <= k < |tail| && tail[k] == x;
          assert es[k + 1] == x;
        }
      }
      ConsSorted(es[0], rest);
    }
  }

  /** A stable insertion sort by name. */
  function SortByName(es: seq<(Id, Genre)>): (r: seq<(Id, Genre)>)
    ensures multiset(r) == multiset(es)
    ensures SortedByName(r)
  {
    if es == [] then []
    else
      var rest := SortByName(es[1..]);
      InsertByNameSorted(es[0], rest);
      assert es == [es[0]] + es[1..];
      InsertByName(es[0], rest)
  }

  /** `genre_list`: `Genre.find().sort([['name', 'ascending']])`, every
      stored genre once, in ascending name order. */
  function GenreList(s: Store): (r: seq<(Id, Genre)>)
    requires WellFormed(s)
    ensures multiset(r) == multiset(Entries(s.genres))
    ensures SortedByName(r)
  {
    SortByName(Entries(s.genres))
  }

  /** What `genre_detail` renders. */
  datatype GenreView = GenreView(genre: Genre, books: map<Id, Book>)

  /** `genre_detail`: a missing id is a 404; otherwise the genre and the
      books that list it. */
  function GenreDetail(s: Store, id: Id): (r: Option<GenreView>)
    ensures r.None? <==> id !in s.genres.rows
    ensures r.Some? ==> r.value.genre == s.genres.rows[id]
    ensures r.Some? ==> forall k :: k in r.value.books <==> k in s.books.rows && id in s.books.rows[k].genre
    ensures r.Some? ==> forall k :: k in r.value.books ==> r.value.books[k] == s.books.rows[k]
  {
    if id !in s.genres.rows then None
    else Some(GenreView(s.genres.rows[id], BooksInGenre(s, id)))
  }

  /** The filter `{ name: n }`. */
  function NameIs(n: string): Genre -> bool {
    (g: Genre) => g.name == n
  }

  /** `Genre.findOne({ name: n })`: the first genre in natural order with
      that exact name, if any. */
  function FindByName(s: Store, n: string): (r: Option<Id>)
    requires WellFormed(s)
    ensures r.Some? ==> r.value in s.genres.rows && s.genres.rows[r.value].name == n
    ensures r.None? <==> forall k :: k in s.genres.rows ==> s.genres.rows[k].name != n
    ensures r.Some? ==> exists i :: 0 <= i < |s.genres.order| && s.genres.order[i] == r.value
                                   && NoneBefore(s.genres.order, s.genres.rows, NameIs(n), i)
  {
    var r := FirstWhere(s.genres.order, s.genres.rows, NameIs(n));
    assert forall k :: k in s.genres.rows ==> k in s.genres.order;
    r
  }

  /** The valid branch of `genre_create_post`: answer the genre already
      named `n`, or store a new one under `newId`. */
  function FindOrCreate(s: Store, n: string, newId: Id): (r: (Store, Outcome))
    requires WellFormed(s) && newId !in s.genres.rows
    ensures WellFormed(r.0)
    ensures r.1.Created? || r.1.Reused?
    ensures r.1.Reused? <==> exists k :: k in s.genres.rows && s.genres.rows[k].name == n
    ensures r.1.Reused? ==>
              && r.0 == s
              && r.1.id in s.genres.rows && s.genres.rows[r.1.id] == r.1.genre
              && r.1.genre.name == n
    ensures r.1.Created? ==>
              && r.1.id == newId
              && r.1.genre == Genre(n)
              && r.0.genres.rows == s.genres.rows[newId := r.1.genre]
              && r.0.books == s.books && r.0.instances == s.instances && r.0.authors == s.authors
  {
    var found := FindByName(s, n);
    if found.Some? then (s, Reused(found.value, s.genres.rows[found.value]))
    else (s.(genres := Insert(s.genres, newId, Genre(n))), Created(newId, Genre(n)))
  }

  /** `genre_create_post`: an empty name writes nothing; a name that equals
      (exactly, after trim and escape) a stored genre's name writes nothing
      and answers that genre; any other name adds exactly one genre. */
  function GenreCreatePost(env: Sanitizers, s: Store, name: string, newId: Id): (r: (Store, Outcome))
    requires WellFormed(s) && newId !in s.genres.rows
    ensures WellFormed(r.0)
    ensures r.1.Created? || r.1.Reused? || r.1.Rejected?
    ensures r.1.Rejected? <==> !NonEmpty(name)
    ensures r.1.Rejected? ==>
              && r.0 == s
              && r.1.errors == [FieldError("name", "Genre name required")]
              && r.1.candidate == Genre(TrimEscape(env, name))
    ensures r.1.Reused? <==>
              NonEmpty(name) && exists k :: k in s.genres.rows && s.genres.rows[k].name == TrimEscape(env, name)
    ensures r.1.Reused? ==>
              && r.0 == s
              && r.1.id in s.genres.rows && s.genres.rows[r.1.id] == r.1.genre
              && r.1.genre.name == TrimEscape(env, name)
    ensures r.1.Created? ==>
              && r.1.id == newId
              && r.1.genre == Genre(TrimEscape(env, name))
              && r.0.genres.rows == s.genres.rows[newId := r.1.genre]
              && r.0.books == s.books && r.0.instances == s.instances && r.0.authors == s.authors
  {
    var n := TrimEscape(env, name);
    var check := Check("name", "Genre name required", false);
    ErrorsOfOne(check);
    if !NonEmpty(name) then
      (s, Rejected(Errors([check]), Genre(n)))
    else FindOrCreate(s, n, newId)
  }

  /** The stored genres carrying `n` as their name. */
  function Named(s: Store, n: string): map<Id, Genre> {
    Where(s.genres, NameIs(n))
  }

  /** The number of stored genres carrying `n` as their name. */
  function NamedCount(s: Store, n: string): nat {
    |Named(s, n)|
  }

  /** Create then detail: whether it created or reused, the answered id
      shows a genre of the sanitised name. */
  lemma GenreCreateThenDetail(env: Sanitizers, s: Store, name: string, newId: Id)
    requires WellFormed(s) && newId !in s.genres.rows && NonEmpty(name)
    ensures var r := GenreCreatePost(env, s, name, newId);
            && (r.1.Created? || r.1.Reused?)
            && GenreDetail(r.0, r.1.id).Some?
            && GenreDetail(r.0, r.1.id).value.genre.name == TrimEscape(env, name)
  {
  }

  /** The presence check reads the untrimmed name: a name of blanks only is
      accepted, and a genre it creates is named by the escape of the empty
      string. */
  lemma BlankNameAccepted(env: Sanitizers, s: Store, name: string, newId: Id)
    requires WellFormed(s) && newId !in s.genres.rows
    requires NonEmpty(name) && AllWhitespace(name)
    ensures var r := GenreCreatePost(env, s, name, newId);
            && !r.1.Rejected?
            && (r.1.Created? ==> r.1.genre.name == env.escape(""))
  {
    TrimEmptyIffWhitespace(name);
  }

  /** Find-or-create: a second create of a name that sanitises the same,
      however it was padded, reuses a genre, the one the first call created
      if it created one, and writes nothing. */
  lemma CreateTwiceReuses(env: Sanitizers, s: Store, n1: string, n2: string, id1: Id, id2: Id)
    requires WellFormed(s) && id1 !in s.genres.rows && NonEmpty(n1) && NonEmpty(n2)
    requires TrimEscape(env, n1) == TrimEscape(env, n2)
    requires id2 !in GenreCreatePost(env, s, n1, id1).0.genres.rows
    ensures var first := GenreCreatePost(env, s, n1, id1);
            var second := GenreCreatePost(env, first.0, n2, id2);
            && second.1.Reused? && second.0 == first.0
            && (first.1.Created? ==> second.1.id == id1)
  {
    var n := TrimEscape(env, n1);
    var first := GenreCreatePost(env, s, n1, id1);
    var s1 := first.0;
    assert exists k :: k in s1.genres.rows && s1.genres.rows[k].name == n by {
      if first.1.Created? {
        assert s1.genres.rows[id1].name == n;
      } else {
        assert s1.genres.rows[first.1.id].name == n;
      }
    }
    if first.1.Created? {
      forall k | k in s1.genres.rows && s1.genres.rows[k].name == n
        ensures k == id1
      {
      }
    }
  }

  /** Find-or-create: creating a name no genre carries, then a name that
      sanitises the same, leaves exactly one genre of that name. */
  lemma CreateTwiceStoresOnce(env: Sanitizers, s: Store, n1: string, n2: string, id1: Id, id2: Id)
    requires WellFormed(s) && id1 !in s.genres.rows && NonEmpty(n1) && NonEmpty(n2)
    requires TrimEscape(env, n1) == TrimEscape(env, n2)
    requires id2 !in GenreCreatePost(env, s, n1, id1).0.genres.rows
    requires NamedCount(s, TrimEscape(env, n1)) == 0
    ensures var first := GenreCreatePost(env, s, n1, id1);
            NamedCount(GenreCreatePost(env, first.0, n2, id2).0, TrimEscape(env, n1)) == 1
  {
    var n := TrimEscape(env, n1);
    var first := GenreCreatePost(env, s, n1, id1);
    CreateTwiceReuses(env, s, n1, n2, id1, id2);
    assert first.1.Created?;
    WhereOfInsert(s.genres, id1, Genre(n), NameIs(n));
    assert Named(s, n) == map[];
  }

  /** `genre_delete_post`, keyed by `req.body.genreid`: a genre that any book
      lists is not removed and the answer lists exactly those books;
      otherwise exactly that id is removed (an id already gone is no
      error). */
  function GenreDeletePost(s: Store, genreid: Id): (r: (Store, Outcome))
    requires WellFormed(s)
    ensures WellFormed(r.0)
    ensures r.1.InUse? || r.1.Deleted?
    ensures r.1.InUse? <==> exists k :: k in s.books.rows && genreid in s.books.rows[k].genre
    ensures r.1.InUse? ==>
              && r.0 == s
              && r.1.target == Find(s.genres, genreid)
              && (forall k :: k in r.1.books <==> k in s.books.rows && genreid in s.books.rows[k].genre)
              && (forall k :: k in r.1.books ==> r.1.books[k] == s.books.rows[k])
    ensures r.1.Deleted? ==>
              && r.0.genres.rows == s.genres.rows - {genreid}
              && r.0.books == s.books && r.0.instances == s.instances && r.0.authors == s.authors
  {
    var dependents := BooksInGenre(s, genreid);
    if dependents != map[] then
      assert exists k :: k in dependents;
      (s, InUse(Find(s.genres, genreid), dependents))
    else
      assert forall k :: k in s.books.rows ==> k !in dependents;
      (s.(genres := Remove(s.genres, genreid)), Deleted)
  }

  /** After a delete that went through, the detail page of that id is a 404. */
  lemma DeletedGenreNotFound(s: Store, genreid: Id)
    requires WellFormed(s)
    requires GenreDeletePost(s, genreid).1.Deleted?
    ensures GenreDetail(GenreDeletePost(s, genreid).0, genreid).None?
  {
  }

  /** `genre_update_post`: an empty name writes nothing; a valid name
      replaces the genre under the path id, which keeps its id. No check for
      an equal name is made. An id with no genre leaves the store as it is
      (the handler fails dereferencing the null result). */
  function GenreUpdatePost(env: Sanitizers, s: Store, id: Id, name: string): (r: (Store, Outcome))
    requires WellFormed(s)
    ensures WellFormed(r.0)
    ensures r.1.Rejected? || r.1.Missing? || r.1.Updated?
    ensures r.1.Rejected? <==> !NonEmpty(name)
    ensures r.1.Rejected? ==>
              && r.0 == s
              && r.1.errors == [FieldError("name", "name must not be empty.")]
              && r.1.candidate == Genre(TrimEscape(env, name))
    ensures r.1.Missing? <==> NonEmpty(name) && id !in s.genres.rows
    ensures r.1.Missing? ==> r.0 == s
    ensures r.1.Updated? ==>
              && r.1.id == id
              && r.1.genre == Genre(TrimEscape(env, name))
              && r.0.genres.rows == s.genres.rows[id := r.1.genre]
              && r.0.genres.order == s.genres.order
              && r.0.books == s.books && r.0.instances == s.instances && r.0.authors == s.authors
  {
    var g := Genre(TrimEscape(env, name));
    var check := Check("name", "name must not be empty.", false);
    ErrorsOfOne(check);
    if !NonEmpty(name) then
      (s, Rejected(Errors([check]), g))
    else if id !in s.genres.rows then
      (s, Missing)
    else
      (s.(genres := Replace(s.genres, id, g)), Updated(id, g))
  }

  /** Update then detail: the genre under the path id carries the new
      name. */
  lemma GenreUpdateThenDetail(env: Sanitizers, s: Store, id: Id, name: string)
    requires WellFormed(s) && id in s.genres.rows && NonEmpty(name)
    ensures var r := GenreUpdatePost(env, s, id, name);
            && r.1.Updated?
            && GenreDetail(r.0, id).Some?
            && GenreDetail(r.0, id).value.genre.name == TrimEscape(env, name)
  {
  }

  /** Deleting twice is deleting once. */
  lemma GenreDeleteIdempotent(s: Store, genreid: Id)
    requires WellFormed(s)
    requires GenreDeletePost(s, genreid).1.Deleted?
    ensures var s1 := GenreDeletePost(s, genreid).0;
            GenreDeletePost(s1, genreid) == (s1, Deleted)
  {
  }

  /** Name uniqueness is not an invariant of the store: renaming a genre to
      another stored genre's name succeeds and leaves two distinct genres
      carrying that name. */
  lemma UpdateCanDuplicateName(env: Sanitizers, s: Store, id: Id, other: Id, name: string)
    requires WellFormed(s) && NonEmpty(name)
    requires id in s.genres.rows && other in s.genres.rows && id != other
    requires s.genres.rows[other].name == TrimEscape(env, name)
    ensures var r := GenreUpdatePost(env, s, id, name);
            && r.1.Updated?
            && other in r.0.genres.rows && id in r.0.genres.rows
            && r.0.genres.rows[id].name == r.0.genres.rows[other].name
  {
  }
}
