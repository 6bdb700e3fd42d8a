/** How the `index` summary of controllers/bookController.js moves under
    the mutations of the three controllers: every count is the size of a
    filtered part of the store, so each mutation shifts exactly the counts
    of the records it adds or removes, whatever the order of the calls. */
module SummaryProperties {
  import opened Tables
  import opened Validation
  import opened Catalog
  import B = BookController
  import I = BookInstanceController
  import G = GenreController

  /** A `save` grows a filter's result by one exactly when the new document
      satisfies the filter. */
  lemma WhereAfterInsert<R>(t: Table<R>, id: Id, r: R, p: R -> bool)
    requires Valid(t) && id !in t.rows
    ensures |Where(Insert(t, id, r), p)| == |Where(t, p)| + (if p(r) then 1 else 0)
  {
    WhereOfInsert(t, id, r, p);
  }

  /** Removing a document the filter selects shrinks its result by one. */
  lemma WhereAfterRemoveSelected<R>(t: Table<R>, id: Id, p: R -> bool)
    requires Valid(t) && id in t.rows && p(t.rows[id])
    ensures |Where(t, p)| == |Where(Remove(t, id), p)| + 1
  {
    WhereOfRemove(t, id, p);
    var m := Where(t, p);
    assert (m - {id}).Keys == m.Keys - {id};
  }

  /** Removing a document the filter does not select leaves its result as
      it is. */
  lemma WhereAfterRemoveUnselected<R>(t: Table<R>, id: Id, p: R -> bool)
    requires Valid(t) && !(id in t.rows && p(t.rows[id]))
    ensures Where(Remove(t, id), p) == Where(t, p)
  {
    WhereOfRemove(t, id, p);
  }

  /** An update in place moves the id out of a filter's result when its
      old document was selected, and back in when its new one is. */
  lemma WhereAfterReplace<R>(t: Table<R>, id: Id, r: R, p: R -> bool)
    requires Valid(t) && id in t.rows
    ensures |Where(Replace(t, id, r), p)|
            == |Where(t, p)| - (if p(t.rows[id]) then 1 else 0) + (if p(r) then 1 else 0)
  {
    WhereOfReplace(t, id, r, p);
    var m := Where(t, p);
    assert id in m <==> p(t.rows[id]);
    SizesAround(m, id, r);
  }

  /** Storing under an id grows a map by one unless the id was there;
      taking an id out shrinks it by one if it was. */
  lemma SizesAround<R>(m: map<Id, R>, id: Id, r: R)
    ensures |m[id := r]| == |m| + (if id in m then 0 else 1)
    ensures |m - {id}| == |m| - (if id in m then 1 else 0)
  {
    if id in m {
      assert m[id := r].Keys == m.Keys;
      assert (m - {id}).Keys == m.Keys - {id};
    } else {
      assert m - {id} == m;
    }
  }

  /** An empty catalog summarises to five zeros. */
  lemma IndexOfEmptyStore()
    ensures B.Index(EmptyStore()) == B.Summary(0, 0, 0, 0, 0)
  {
    assert Where(EmptyStore().instances, IsAvailable) == map[];
  }

  /** Creating a copy adds one to the copy count, and one to the available
      count exactly when its sanitised status is `Available`. */
  lemma IndexAfterInstanceCreate(env: Sanitizers, s: Store, f: I.InstanceForm, newId: Id)
    requires WellFormed(s) && newId !in s.instances.rows
    requires I.CreateFormValid(env, f)
    ensures var before := B.Index(s);
            var after := B.Index(I.BookInstanceCreatePost(env, s, f, newId).0);
            && after.bookInstance == before.bookInstance + 1
            && after.bookInstanceAvailable
               == before.bookInstanceAvailable + (if TrimEscape(env, f.status) == Available then 1 else 0)
            && after.bookCount == before.bookCount && after.author == before.author && after.genre == before.genre
  {
    var bi := I.CreateCandidate(env, f);
    WhereAfterInsert(s.instances, newId, bi, IsAvailable);
  }

  /** Deleting a stored copy takes one off the copy count, and one off the
      available count exactly when it was available. */
  lemma IndexAfterInstanceDelete(s: Store, id: Id)
    requires WellFormed(s) && id in s.instances.rows
    ensures var before := B.Index(s);
            var after := B.Index(I.BookInstanceDeletePost(s, id).0);
            && after.bookInstance == before.bookInstance - 1
            && after.bookInstanceAvailable
               == before.bookInstanceAvailable - (if IsAvailable(s.instances.rows[id]) then 1 else 0)
            && after.bookCount == before.bookCount && after.author == before.author && after.genre == before.genre
  {
    if IsAvailable(s.instances.rows[id]) {
      WhereAfterRemoveSelected(s.instances, id, IsAvailable);
    } else {
      WhereAfterRemoveUnselected(s.instances, id, IsAvailable);
    }
  }

  /** Creating a book adds one to the book count and nothing else. */
  lemma IndexAfterBookCreate(env: Sanitizers, s: Store, f: B.BookForm, newId: Id)
    requires WellFormed(s) && newId !in s.books.rows
    requires B.BookFormValid(f)
    ensures var before := B.Index(s);
            var after := B.Index(B.BookCreatePost(env, s, f, newId).0);
            after == before.(bookCount := before.bookCount + 1)
  {
  }

  /** A book delete that goes through takes one off the book count when the
      book was stored, and changes no other count. */
  lemma IndexAfterBookDelete(s: Store, id: Id)
    requires WellFormed(s)
    requires B.BookDeletePost(s, id).1.Deleted?
    ensures var before := B.Index(s);
            var after := B.Index(B.BookDeletePost(s, id).0);
            after == before.(bookCount := before.bookCount - (if id in s.books.rows then 1 else 0))
  {
  }

  /** A genre create adds one to the genre count when it creates, and
      changes no count when it reuses or rejects. */
  lemma IndexAfterGenreCreate(env: Sanitizers, s: Store, name: string, newId: Id)
    requires WellFormed(s) && newId !in s.genres.rows
    ensures var r := G.GenreCreatePost(env, s, name, newId);
            var before := B.Index(s);
            && (r.1.Created? ==> B.Index(r.0) == before.(genre := before.genre + 1))
            && (!r.1.Created? ==> B.Index(r.0) == before)
  {
  }

  /** A copy update that goes through keeps the copy count and moves the
      available count by the old and the new status of that copy; a
      rejected form or an id no copy has changes no count. */
  lemma IndexAfterInstanceUpdate(env: Sanitizers, s: Store, id: Id, f: I.InstanceForm)
    requires WellFormed(s)
    ensures var r := I.BookInstanceUpdatePost(env, s, id, f);
            var before := B.Index(s);
            var after := B.Index(r.0);
            && after.bookInstance == before.bookInstance
            && after.bookCount == before.bookCount && after.author == before.author && after.genre == before.genre
            && (r.1.Saved? && id in s.instances.rows ==>
                  after.bookInstanceAvailable
                  == before.bookInstanceAvailable
                     - (if IsAvailable(s.instances.rows[id]) then 1 else 0)
                     + (if TrimEscape(env, f.status) == Available then 1 else 0))
            && (r.1.Rejected? || id !in s.instances.rows ==> after == before)
  {
    var r := I.BookInstanceUpdatePost(env, s, id, f);
    if r.1.Saved? && id in s.instances.rows {
      WhereAfterReplace(s.instances, id, r.1.instance, IsAvailable);
      assert r.0.instances == Replace(s.instances, id, r.1.instance);
    }
  }

  /** A book update, whatever its outcome, changes no count. */
  lemma IndexAfterBookUpdate(env: Sanitizers, s: Store, id: Id, f: B.BookForm)
    requires WellFormed(s)
    ensures B.Index(B.BookUpdatePost(env, s, id, f).0) == B.Index(s)
  {
  }

  /** A genre delete that goes through takes one off the genre count when
      the genre was stored; a refused one changes no count. */
  lemma IndexAfterGenreDelete(s: Store, id: Id)
    requires WellFormed(s)
    ensures var r := G.GenreDeletePost(s, id);
            var before := B.Index(s);
            && (r.1.Deleted? ==> B.Index(r.0) == before.(genre := before.genre - (if id in s.genres.rows then 1 else 0)))
            && (r.1.InUse? ==> B.Index(r.0) == before)
  {
  }

  /** A genre update, whatever its outcome, changes no count. */
  lemma IndexAfterGenreUpdate(env: Sanitizers, s: Store, id: Id, name: string)
    requires WellFormed(s)
    ensures B.Index(G.GenreUpdatePost(env, s, id, name).0) == B.Index(s)
  {
  }
}
