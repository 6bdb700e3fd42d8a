/** controllers/bookinstanceController.js: detail, create (with an optional
    ISO 8601 due date), the unguarded delete and the update (which demands
    every field). */
module BookInstanceController {
  import opened Tables
  import opened Validation
  import opened Catalog

  /** The request body of a copy create or update. */
  datatype InstanceForm = InstanceForm(book: string, imprint: string, status: string, dueBack: string)

  /** What a copy mutation answers. `Saved` and `Deleted` are `flag: true`. */
  datatype Outcome =
    | Saved(id: Id, instance: BookInstance)
    | Rejected(errors: seq<FieldError>, candidate: BookInstance)
    | Deleted

  /** What `bookinstance_detail` renders: the copy and its book populated. */
  datatype InstanceView = InstanceView(instance: BookInstance, book: Option<Book>)

  /** `bookinstance_detail`: a missing id is a 404. */
  function BookInstanceDetail(s: Store, id: Id): (r: Option<InstanceView>)
    ensures r.None? <==> id !in s.instances.rows
    ensures r.Some? ==> r.value.instance == s.instances.rows[id]
    ensures r.Some? ==> r.value.book == Find(s.books, s.instances.rows[id].book)
  {
    if id !in s.instances.rows then None
    else
      var bi := s.instances.rows[id];
      Some(InstanceView(bi, Find(s.books, bi.book)))
  }

  /** `body('due_back').optional({ checkFalsy: true }).isISO8601()`: an
      empty (falsy) value passes, any other must be an ISO 8601 date. */
  predicate DueBackAcceptable(env: Sanitizers, raw: string)
    ensures raw == "" ==> DueBackAcceptable(env, raw)
    ensures raw != "" ==> (DueBackAcceptable(env, raw) <==> env.isIso8601(raw))
  {
    raw == "" || env.isIso8601(raw)
  }

  /** The create chain, in order. */
  function CreateChecks(env: Sanitizers, f: InstanceForm): seq<Check> {
    [ Check("book", "Book must be specified", NonEmpty(f.book)),
      Check("imprint", "Imprint must be specified", NonEmpty(f.imprint)),
      Check("due_back", "Invalid date", DueBackAcceptable(env, f.dueBack)) ]
  }

  predicate CreateFormValid(env: Sanitizers, f: InstanceForm) {
    NonEmpty(f.book) && NonEmpty(f.imprint) && DueBackAcceptable(env, f.dueBack)
  }

  /** The create chain reports an error exactly for each failed check. */
  lemma CreateErrorsExact(env: Sanitizers, f: InstanceForm)
    ensures Errors(CreateChecks(env, f)) == [] <==> CreateFormValid(env, f)
    ensures ReportsExactly(Errors(CreateChecks(env, f)), CreateChecks(env, f))
  {
    var cs := CreateChecks(env, f);
    assert (forall i :: 0 <= i < |cs| ==> cs[i].passed) <==> CreateFormValid(env, f) by {
      assert cs[0].passed && cs[1].passed && cs[2].passed <==> CreateFormValid(env, f);
    }
    assert FieldsDistinct(cs) by {
      assert |cs[0].field| == 4 && |cs[1].field| == 7 && |cs[2].field| == 8;
    }
    ErrorsReportExactly(cs);
  }

  /** The copy `bookinstance_create_post` builds: book, imprint and status
      trimmed and escaped, `due_back` through `toDate()` untrimmed. */
  function CreateCandidate(env: Sanitizers, f: InstanceForm): (bi: BookInstance)
    ensures bi.book == TrimEscape(env, f.book) && bi.imprint == TrimEscape(env, f.imprint)
    ensures bi.status == TrimEscape(env, f.status)
    ensures f.dueBack == "" ==> bi.dueBack == None
    ensures f.dueBack != "" ==> bi.dueBack == env.parseDate(f.dueBack)
  {
    BookInstance(TrimEscape(env, f.book), TrimEscape(env, f.imprint), TrimEscape(env, f.status), ToDate(env, f.dueBack))
  }

  /** `bookinstance_create_post`: a form with an empty book or imprint, or a
      non-empty due date that is not ISO 8601, writes nothing; a valid one
      adds exactly one copy under a fresh id. */
  function BookInstanceCreatePost(env: Sanitizers, s: Store, f: InstanceForm, newId: Id): (r: (Store, Outcome))
    requires WellFormed(s) && newId !in s.instances.rows
    ensures WellFormed(r.0)
    ensures r.1.Saved? || r.1.Rejected?
    ensures r.1.Saved? <==> CreateFormValid(env, f)
    ensures r.1.Rejected? ==>
              && r.0 == s
              && r.1.errors != []
              && r.1.errors == Errors(CreateChecks(env, f))
              && ReportsExactly(r.1.errors, CreateChecks(env, f))
              && r.1.candidate == CreateCandidate(env, f)
    ensures r.1.Saved? ==>
              && r.1.id == newId
              && r.1.instance == CreateCandidate(env, f)
              && r.0.instances.rows == s.instances.rows[newId := r.1.instance]
              && |r.0.instances.rows| == |s.instances.rows| + 1
              && r.0.books == s.books && r.0.genres == s.genres && r.0.authors == s.authors
  {
    var bi := CreateCandidate(env, f);
    CreateErrorsExact(env, f);
    if !CreateFormValid(env, f) then
      (s, Rejected(Errors(CreateChecks(env, f)), bi))
    else
      (s.(instances := Insert(s.instances, newId, bi)), Saved(newId, bi))
  }

  /** `bookinstance_delete_post`: no dependency guard; the copy under the id
      is removed if there is one, nothing else changes, and the answer is
      `flag: true` either way. */
  function BookInstanceDeletePost(s: Store, id: Id): (r: (Store, Outcome))
    requires WellFormed(s)
    ensures WellFormed(r.0)
    ensures r.1 == Deleted
    ensures r.0.instances.rows == s.instances.rows - {id}
    ensures id !in s.instances.rows ==> r.0 == s
    ensures r.0.books == s.books && r.0.genres == s.genres && r.0.authors == s.authors
  {
    (s.(instances := Remove(s.instances, id)), Deleted)
  }

  /** The update chain, in order: all four fields are required. */
  function UpdateChecks(f: InstanceForm): seq<Check> {
    [ Check("book", "Book must not be empty.", NonEmpty(f.book)),
      Check("imprint", "imprint must not be empty.", NonEmpty(f.imprint)),
      Check("status", "Status must not be empty.", NonEmpty(f.status)),
      Check("due_back", "due_back must not be empty", NonEmpty(f.dueBack)) ]
  }

  predicate UpdateFormValid(f: InstanceForm) {
    NonEmpty(f.book) && NonEmpty(f.imprint) && NonEmpty(f.status) && NonEmpty(f.dueBack)
  }

  /** The update chain reports an error exactly for each empty field. */
  lemma UpdateErrorsExact(f: InstanceForm)
    ensures Errors(UpdateChecks(f)) == [] <==> UpdateFormValid(f)
    ensures ReportsExactly(Errors(UpdateChecks(f)), UpdateChecks(f))
  {
    var cs := UpdateChecks(f);
    assert (forall i :: 0 <= i < |cs| ==> cs[i].passed) <==> UpdateFormValid(f) by {
      assert cs[0].passed && cs[1].passed && cs[2].passed && cs[3].passed <==> UpdateFormValid(f);
    }
    assert FieldsDistinct(cs) by {
      assert |cs[0].field| == 4 && |cs[1].field| == 7 && |cs[2].field| == 6 && |cs[3].field| == 8;
    }
    ErrorsReportExactly(cs);
  }

  /** The copy `bookinstance_update_post` builds: all four fields trimmed and
      escaped; the due date is the escaped text as the schema's Date cast
      reads it. */
  function UpdateCandidate(env: Sanitizers, f: InstanceForm): (bi: BookInstance)
    ensures bi.book == TrimEscape(env, f.book) && bi.imprint == TrimEscape(env, f.imprint)
    ensures bi.status == TrimEscape(env, f.status)
    ensures bi.dueBack == ToDate(env, TrimEscape(env, f.dueBack))
  {
    BookInstance(TrimEscape(env, f.book), TrimEscape(env, f.imprint), TrimEscape(env, f.status),
                 ToDate(env, TrimEscape(env, f.dueBack)))
  }

  /** `bookinstance_update_post`: a form with any empty field writes
      nothing; a valid one replaces the copy under the path id, which keeps
      its id, and touches nothing else. An id with no copy changes nothing
      and is still answered `flag: true`. */
  function BookInstanceUpdatePost(env: Sanitizers, s: Store, id: Id, f: InstanceForm): (r: (Store, Outcome))
    requires WellFormed(s)
    ensures WellFormed(r.0)
    ensures r.1.Saved? || r.1.Rejected?
    ensures r.1.Saved? <==> UpdateFormValid(f)
    ensures r.1.Rejected? ==>
              && r.0 == s
              && r.1.errors != []
              && r.1.errors == Errors(UpdateChecks(f))
              && ReportsExactly(r.1.errors, UpdateChecks(f))
              && r.1.candidate == UpdateCandidate(env, f)
    ensures r.1.Saved? ==>
              && r.1.id == id
              && r.1.instance == UpdateCandidate(env, f)
              && r.0.instances.order == s.instances.order
              && (id in s.instances.rows ==> r.0.instances.rows == s.instances.rows[id := r.1.instance])
              && (id !in s.instances.rows ==> r.0 == s)
              && r.0.books == s.books && r.0.genres == s.genres && r.0.authors == s.authors
  {
    var bi := UpdateCandidate(env, f);
    UpdateErrorsExact(f);
    if !UpdateFormValid(f) then
      (s, Rejected(Errors(UpdateChecks(f)), bi))
    else
      (s.(instances := Replace(s.instances, id, bi)), Saved(id, bi))
  }

  /** Create and update accept different forms: a copy with no status and
      no due date can be created but not updated, and a non-ISO due date
      can be stored by an update but not by a create. */
  lemma CreateAndUpdateAcceptDifferently(env: Sanitizers, book: string, imprint: string, text: string)
    requires NonEmpty(book) && NonEmpty(imprint) && NonEmpty(text) && !env.isIso8601(text)
    ensures CreateFormValid(env, InstanceForm(book, imprint, "", ""))
    ensures !UpdateFormValid(InstanceForm(book, imprint, "", ""))
    ensures !CreateFormValid(env, InstanceForm(book, imprint, text, text))
    ensures UpdateFormValid(InstanceForm(book, imprint, text, text))
  {
  }

  /** Create then detail: a saved copy is found under its new id. */
  lemma InstanceCreateThenDetail(env: Sanitizers, s: Store, f: InstanceForm, newId: Id)
    requires WellFormed(s) && newId !in s.instances.rows && CreateFormValid(env, f)
    ensures var r := BookInstanceCreatePost(env, s, f, newId);
            && BookInstanceDetail(r.0, newId).Some?
            && BookInstanceDetail(r.0, newId).value.instance == r.1.instance
  {
  }

  /** After a delete, the detail page of that id is a 404. */
  lemma DeletedInstanceNotFound(s: Store, id: Id)
    requires WellFormed(s)
    ensures BookInstanceDetail(BookInstanceDeletePost(s, id).0, id).None?
  {
  }

  /** Deleting twice is deleting once. */
  lemma InstanceDeleteIdempotent(s: Store, id: Id)
    requires WellFormed(s)
    ensures var s1 := BookInstanceDeletePost(s, id).0;
            BookInstanceDeletePost(s1, id) == (s1, Deleted)
  {
  }

  /** Update then detail: the stored copy is the sanitised candidate, under
      the same id. */
  lemma InstanceUpdateThenDetail(env: Sanitizers, s: Store, id: Id, f: InstanceForm)
    requires WellFormed(s) && id in s.instances.rows && UpdateFormValid(f)
    ensures var r := BookInstanceUpdatePost(env, s, id, f);
            BookInstanceDetail(r.0, id).Some? && BookInstanceDetail(r.0, id).value.instance == r.1.instance
  {
  }
}
