# Local-library catalog: a verified model of the controller rules

This project models the catalog consistency rules of the Express
"local library" application's three controllers:
`controllers/bookController.js`, `controllers/bookinstanceController.js` and
`controllers/genreController.js`. It proves properties of that model.

HTTP, Mongoose and the views are stripped away. What remains is an abstract
record store (`Catalog.Store`), which holds:

- one table each of books, book copies (BookInstances) and genres;
- the author ids, which are only counted.

A table (`Tables.Table`) is a map from id to document plus the natural
order in which an unsorted `find()` returns the documents. Each handler is
one atomic step over one snapshot of that store. A mutation is a pure
function `(store, input) -> (store', outcome)`. A read is a function from
the store to an optional view, where `None` is the 404 path.

Modules:

- `Tables`: the store primitives: `save`, `findByIdAndRemove`,
  `findByIdAndUpdate`, `findById`, `find(filter)`, `count(filter)`,
  `findOne`, and `populate` of an id array.
- `Text`: validator.js `trim` on the JavaScript `\s` class, and the name
  order used by the genre list.
- `Validation`: the express-validator chain: error collection in chain order,
  trim-and-escape sanitising, `toDate`, and the genre-array normalisation.
  `escape`, `isISO8601` and the date parser are function-valued parameters
  (`Validation.Sanitizers`). Nothing is assumed about them; in particular,
  `escape` is not assumed idempotent.
- `Catalog`: the record types and the store.
- `BookController`, `BookInstanceController`, `GenreController`: one member
  per handler, named after it.
- `SummaryProperties`: how the `index` counts move under every create,
  delete and update of the three controllers.

Notes on the code's behaviour:

- Every required-field check is `isLength({ min: 1 })` on the raw value;
  the `.trim()` comes after it. A value of blanks only therefore passes the
  check, and the handler builds a genre named by the escape of the empty
  string (see `GenreController.BlankNameAccepted` and
  `Validation.NonEmptyBeforeTrim`). Whether the Mongoose schema then
  accepts that document depends on `models/genre.js`, which is not part of
  this model.
- Book create sanitises with `sanitizeBody('*').trim().escape()` and then
  `sanitizeBody('genre.*').escape()`. The model assumes the wildcard reaches
  the genre array's elements, so a created book stores each genre id escaped
  twice. Book update trims and escapes each element once.
- Genre update makes no check for an equal name, so two genres may carry the
  same name (`GenreController.UpdateCanDuplicateName`). Name uniqueness is
  not a store invariant. Find-or-create only stops a create from adding a
  duplicate.
- Book update and copy update on an id with no document leave the store as
  it is, and the answer still says `flag: true`. Genre update on such an id
  reaches `thegenre.url` on a null result; the model answers `Missing` and
  leaves the store unchanged.
- Copy create requires only `book` and `imprint`, plus an ISO 8601
  `due_back` when one is given. Copy update requires all four fields and does
  not check the date format (`BookInstanceController.CreateAndUpdateAcceptDifferently`).
- An absent scalar body field reads as the empty string.

## Model

| member | source | states |
|---|---|---|
| Tables.Insert | controllers/bookController.js:167 | a `save` under a fresh id adds exactly that document and keeps the table's invariant |
| Tables.Remove | controllers/bookController.js:216 | `findByIdAndRemove` takes out exactly that id and keeps the table's invariant; an absent id changes nothing |
| Tables.Replace | controllers/bookController.js:336 | `findByIdAndUpdate` without upsert replaces the document in place, keeping its id and its place in the order; an absent id changes nothing |
| Tables.Find | controllers/bookController.js:57 | `findById` answers the stored document exactly when the id is stored, and nothing otherwise |
| Tables.Where | controllers/bookController.js:64 | `find(filter)` selects exactly the stored documents that satisfy the filter, each as stored |
| Tables.Entries | controllers/bookController.js:148-150 | an unsorted `find()` lists every document once, in natural order, each with its id |
| Tables.Without | controllers/bookController.js:216 | taking an id out of the natural order keeps exactly the other ids and their distinctness |
| Tables.Count | controllers/bookController.js:14-28 | `count(filter)` scanning the collection equals the number of documents the filter selects |
| Tables.CountInIsSetSize | controllers/bookController.js:14-28 | a scan over distinct ids counts exactly the set of ids whose documents match |
| Tables.WhereOfInsert | controllers/bookinstanceController.js:98 | a `save` adds the new document to a filter's result exactly when the filter selects it |
| Tables.WhereOfRemove | controllers/bookController.js:216 | a remove takes that id out of every filter's result and changes nothing else in it |
| Tables.WhereOfReplace | controllers/bookinstanceController.js:217 | an update in place keeps the id in a filter's result, under its new document, exactly when the filter selects the new document |
| Tables.FirstWhere | controllers/genreController.js:87-91 | `findOne` answers the first matching document in the scan order, and answers none exactly when no document matches |
| Tables.Resolve | controllers/bookController.js:59 | `populate('genre')` yields the referenced genres that exist, each with its stored document, and drops dangling ids |
| Text.TrimStart | controllers/genreController.js:65 | the leading-whitespace strip removes exactly a prefix of blanks and leaves a non-blank first character |
| Text.TrimEnd | controllers/genreController.js:65 | the trailing-whitespace strip removes exactly a suffix of blanks and leaves a non-blank last character |
| Text.Trim | controllers/genreController.js:65 | `trim` returns a contiguous slice of the input with blanks only around it and no blank at either end |
| Text.TrimEmptyIffWhitespace | controllers/genreController.js:62-65 | trimming yields the empty string exactly when the input is all blanks |
| Text.TrimIdempotent | controllers/genreController.js:65 | trimming twice is trimming once |
| Text.NameLe | controllers/genreController.js:13 | the ascending name order puts a prefix first and orders non-empty names by their first characters |
| Text.NameLeTotal | controllers/genreController.js:13 | any two names are comparable under the sort order |
| Text.NameLeTransitive | controllers/genreController.js:13 | the sort order is transitive |
| Text.NameLeAntisymmetric | controllers/genreController.js:13 | names that sort before each other are equal |
| Validation.TrimEscapeStripsBlanks | controllers/genreController.js:65 | the sanitised value is the escape of the input with its surrounding whitespace, and only that, stripped; a value of blanks escapes the empty string |
| Validation.TrimEscapeOfTrimmed | controllers/genreController.js:65 | trimming an input before the sanitiser does not change what the sanitiser yields |
| Validation.ToDate | controllers/bookinstanceController.js:68 | `toDate` answers no date for the empty string and the parser's reading of any other |
| Validation.NonEmpty | controllers/genreController.js:62 | `isLength({ min: 1 })` passes exactly the non-empty values |
| Validation.NonEmptyBeforeTrim | controllers/genreController.js:62-65 | the presence check passes a value that trims to something and also one of blanks only; only the empty value fails |
| Validation.Errors | controllers/bookController.js:116-128 | the collected errors are empty exactly when every check passed; each failed check's error is reported and every reported error comes from a failed check |
| Validation.ErrorsReportExactly | controllers/bookController.js:116-128 | with no field checked twice, a check's error is reported exactly when that check failed, and no other error is reported |
| Validation.ErrorsInChainOrder | controllers/bookController.js:116-128 | of two failed checks, the earlier one's error is reported before the later one's |
| Validation.ErrorsOfOne | controllers/genreController.js:62 | a one-check chain reports that check's error alone, or nothing |
| Validation.GenreArray | controllers/bookController.js:105-113 | absent genre input becomes `[]`, a scalar `g` becomes `[g]`, and an array passes through |
| Catalog.InstancesOf | controllers/bookController.js:64 | `BookInstance.find({ book: id })` selects exactly the copies referencing that book |
| Catalog.BooksInGenre | controllers/genreController.js:34 | `Book.find({ genre: id })` selects exactly the books whose genre array contains the id |
| BookController.Index | controllers/bookController.js:13-30 | the five summary counts are the numbers of books, copies, copies whose status is `Available`, authors and genres |
| BookController.BookDetail | controllers/bookController.js:52-79 | a missing id is a 404; otherwise the view holds the stored book; exactly the stored genres it lists, each with its stored document; and exactly its copies, each as stored |
| BookController.BookErrorsExact | controllers/bookController.js:116-119 | the book chain reports no error exactly when all four fields are non-empty, and one error per empty field |
| BookController.CreateCandidate | controllers/bookController.js:122-138 | the created book holds the four fields trimmed and escaped, one genre per normalised input element, each trimmed and escaped and escaped again |
| BookController.UpdateCandidate | controllers/bookController.js:286-307 | the updated book holds the four fields and each genre element trimmed and escaped once |
| BookController.IndexOf | controllers/bookController.js:156 | `indexOf` gives the first position of the id, or -1 exactly when it is absent |
| BookController.MarkChecked | controllers/bookController.js:155-159 | every fetched genre is offered once, in order, and is checked exactly when the book's genre array contains its id |
| BookController.MarkCheckedByScan | controllers/bookController.js:251-257 | the nested loops check a fetched genre exactly when some populated genre of the book has the same id |
| BookController.BookUpdateGet | controllers/bookController.js:228-262 | a missing id is a 404; otherwise every stored genre is offered and checked exactly when the book lists it |
| BookController.BookCreatePost | controllers/bookController.js:103-175 | the answer's `flag` is true exactly when the form is valid; an invalid form writes nothing and answers the chain's errors: exactly the failed checks' errors, in chain order, and nothing else; a valid one adds exactly one book under the fresh id and changes no other record |
| BookController.BookDeletePost | controllers/bookController.js:197-224 | the answer's `flag` is true exactly when no copy references the book; a book any copy references is kept, and the answer lists exactly those copies; otherwise exactly that id is removed and nothing else changes |
| BookController.BookUpdatePost | controllers/bookController.js:266-344 | the answer's `flag` is true exactly when the form is valid; an invalid form writes nothing and answers exactly the failed checks' errors; a valid one replaces the book under the path id in place, keeping the id, and changes no other record |
| BookController.GenreShapeSharedByCreateAndUpdate | controllers/bookController.js:105-113 | create and update store one genre per normalised input element: none when absent, one for a scalar, one per element of an array |
| BookController.CreateThenDetail | controllers/bookController.js:131-172 | a book just created is found under its new id and holds the sanitised candidate |
| BookController.DeletedBookNotFound | controllers/bookController.js:214-221 | after a delete goes through, the detail of that id is a 404 |
| BookController.BookDeleteIdempotent | controllers/bookController.js:214-221 | deleting again after a delete succeeds and changes nothing |
| BookController.UpdateThenDetail | controllers/bookController.js:299-307 | after a valid update, the detail of the same id shows the updated book |
| BookInstanceController.BookInstanceDetail | controllers/bookinstanceController.js:23-39 | a missing id is a 404; otherwise the stored copy with its book populated if it exists |
| BookInstanceController.DueBackAcceptable | controllers/bookinstanceController.js:62 | an empty due date passes the optional check, and any other passes exactly when it is ISO 8601 |
| BookInstanceController.CreateErrorsExact | controllers/bookinstanceController.js:60-62 | the create chain passes exactly when book and imprint are non-empty and due_back is empty or ISO 8601, with one error per failed check |
| BookInstanceController.CreateCandidate | controllers/bookinstanceController.js:65-83 | the created copy holds book, imprint and status trimmed and escaped, and due_back as parsed from the raw text, absent when empty |
| BookInstanceController.BookInstanceCreatePost | controllers/bookinstanceController.js:57-106 | an invalid form writes nothing and answers the chain's errors: exactly the failed checks' errors, in chain order, and nothing else; a valid one adds exactly one copy under the fresh id and changes nothing else |
| BookInstanceController.BookInstanceDeletePost | controllers/bookinstanceController.js:125-143 | with no guard, the copy under the id is removed if present, nothing else changes, and the answer is success either way |
| BookInstanceController.UpdateErrorsExact | controllers/bookinstanceController.js:173-176 | the update chain passes exactly when all four fields are non-empty, with one error per empty field |
| BookInstanceController.UpdateCandidate | controllers/bookinstanceController.js:179-198 | the updated copy holds all four fields trimmed and escaped, with due_back read as a date from that text |
| BookInstanceController.BookInstanceUpdatePost | controllers/bookinstanceController.js:169-225 | an invalid form writes nothing and carries exactly the failed checks' errors; a valid one replaces the copy under the path id in place, and an absent id changes nothing |
| BookInstanceController.CreateAndUpdateAcceptDifferently | controllers/bookinstanceController.js:60-62 | a copy without status and due date can be created but not updated, and a non-ISO date is refused by create but accepted by update |
| BookInstanceController.InstanceCreateThenDetail | controllers/bookinstanceController.js:77-103 | a copy just created is found under its new id |
| BookInstanceController.DeletedInstanceNotFound | controllers/bookinstanceController.js:135-140 | after a delete, the detail of that id is a 404 |
| BookInstanceController.InstanceDeleteIdempotent | controllers/bookinstanceController.js:125-143 | deleting twice is deleting once |
| BookInstanceController.InstanceUpdateThenDetail | controllers/bookinstanceController.js:191-220 | after a valid update, the detail of the same id shows the updated copy |
| GenreController.InsertByName | controllers/genreController.js:13 | inserting one entry into the listing adds exactly that entry |
| GenreController.ConsSorted | controllers/genreController.js:13 | an entry no later by name than a sorted listing's entries can head it |
| GenreController.InsertByNameSorted | controllers/genreController.js:13 | inserting into a name-sorted listing keeps it sorted |
| GenreController.SortByName | controllers/genreController.js:12-13 | the sort returns a permutation of its input, in ascending name order |
| GenreController.GenreList | controllers/genreController.js:10-20 | the list holds every stored genre exactly once, in ascending name order |
| GenreController.GenreDetail | controllers/genreController.js:24-49 | a missing id is a 404; otherwise the genre and exactly the books whose genre array contains the id, each as stored |
| GenreController.FindByName | controllers/genreController.js:87-88 | `findOne({ name })` answers the first stored genre of that name in natural order, and none exactly when no genre has it |
| GenreController.FindOrCreate | controllers/genreController.js:85-103 | an existing name is reused with nothing written; otherwise exactly one genre of that name is added |
| GenreController.GenreCreatePost | controllers/genreController.js:59-108 | an empty name writes nothing; a name equal to a stored one reuses that genre and writes nothing; any other adds exactly one genre |
| GenreController.GenreCreateThenDetail | controllers/genreController.js:87-101 | whether created or reused, the answered id shows a genre of the sanitised name |
| GenreController.BlankNameAccepted | controllers/genreController.js:62-65 | a name of blanks only passes the presence check, and a genre it creates is named by the escape of the empty string |
| GenreController.CreateTwiceReuses | controllers/genreController.js:87-94 | a second create of a name that sanitises the same, however padded, reuses a genre (the one the first created, if it created one) and writes nothing |
| GenreController.CreateTwiceStoresOnce | controllers/genreController.js:95-101 | creating a new name, then a name that sanitises the same, leaves exactly one genre of that name |
| GenreController.GenreDeletePost | controllers/genreController.js:130-155 | a genre any book lists is kept, and the answer lists exactly those books; otherwise exactly the `genreid` from the body is removed |
| GenreController.DeletedGenreNotFound | controllers/genreController.js:146-152 | after a delete goes through, the detail of that id is a 404 |
| GenreController.GenreDeleteIdempotent | controllers/genreController.js:146-152 | deleting again after a delete succeeds and changes nothing |
| GenreController.GenreUpdatePost | controllers/genreController.js:176-209 | an empty name writes nothing; a valid name replaces the genre under the path id in place; an absent id changes nothing |
| GenreController.GenreUpdateThenDetail | controllers/genreController.js:191-207 | after a valid update, the detail of the same id shows the new name |
| GenreController.UpdateCanDuplicateName | controllers/genreController.js:201-207 | renaming a genre to another genre's name succeeds, so two genres carry that name |
| SummaryProperties.WhereAfterInsert | controllers/bookController.js:20-22 | a `save` grows a filtered count by one exactly when the new document matches |
| SummaryProperties.WhereAfterRemoveSelected | controllers/bookController.js:20-22 | removing a matching document shrinks a filtered count by one |
| SummaryProperties.WhereAfterRemoveUnselected | controllers/bookController.js:20-22 | removing a non-matching document leaves a filtered result unchanged |
| SummaryProperties.WhereAfterReplace | controllers/bookController.js:20-22 | an update in place takes one off a filtered count when the old document matched and adds one when the new one matches |
| SummaryProperties.IndexOfEmptyStore | controllers/bookController.js:13-30 | an empty catalog summarises to five zeros |
| SummaryProperties.IndexAfterInstanceCreate | controllers/bookController.js:17-22 | creating a copy adds one copy, and one available copy exactly when its sanitised status is `Available` |
| SummaryProperties.IndexAfterInstanceDelete | controllers/bookController.js:17-22 | deleting a copy takes one off the copies, and one off the available copies exactly when it was available |
| SummaryProperties.IndexAfterBookCreate | controllers/bookController.js:14-16 | creating a book adds one to the book count and changes no other count |
| SummaryProperties.IndexAfterBookDelete | controllers/bookController.js:14-16 | a delete that goes through takes one off the book count when the book was stored, and changes no other count |
| SummaryProperties.IndexAfterInstanceUpdate | controllers/bookController.js:17-22 | a copy update keeps the copy count and moves the available count by the old and the new status of that copy; a rejected form or an absent id changes no count |
| SummaryProperties.IndexAfterBookUpdate | controllers/bookController.js:13-30 | a book update changes no count |
| SummaryProperties.IndexAfterGenreDelete | controllers/bookController.js:26-28 | a genre delete that goes through takes one off the genre count when the genre was stored; a refused one changes no count |
| SummaryProperties.IndexAfterGenreUpdate | controllers/bookController.js:13-30 | a genre update changes no count |
| SummaryProperties.IndexAfterGenreCreate | controllers/bookController.js:26-28 | a genre create adds one to the genre count when it creates, and changes no count when it reuses or rejects |

## Left out

- `app.js` and `browser/*`: Express wiring, the database connection and ad-hoc HTTP clients. They are not part of this model.
- The list and GET-form handlers (`book_list`, `book_create_get`, `book_delete_get`, `bookinstance_list`, `bookinstance_create_get`, `bookinstance_delete_get`, `bookinstance_update_get`, `genre_create_get`, `genre_delete_get`, `genre_update_get`): they only read and render, and carry no catalog rule.
- Database errors, and the concurrency of `async.parallel`: each handler is one atomic step over one snapshot. This excludes the check-then-act races of the delete guards and of find-or-create.
- The bodies of `escape`, `isISO8601` and the date parser: these are parameters of `Validation.Sanitizers`, with no properties assumed.
- ObjectId generation: the fresh id is a parameter that a precondition keeps out of the table.
- `populate('author')` and Author records: authors are kept as a set of ids and only counted.
- Response encoding (render, redirect and JSON shapes) and the handler faults on error paths:
  - the undefined `next` at controllers/bookController.js:187 and 206;
  - the answer sent before the update completes at controllers/bookController.js:336-341;
  - `bookinstance.book._id` on a rejected copy create;
  - the missing response on a rejected copy update;
  - `book_update_get` answering a 404 without returning at controllers/bookController.js:243-248, then reading `results.book.genre` of the null result at line 252 (`BookController.BookUpdateGet` stops at the 404).
- BookController.BookCreatePost: the rejected answer carries the errors, the sanitised candidate and the marked genres; the handler sends only `flag: false`.
- GenreController.GenreUpdatePost: the rejected answer carries the validation errors; the handler computes them but renders the form without them.
- Mongoose schema casts, defaults and enums, and schema validators such as `required` and length limits (the models are not part of this model):
  - every document the handler builds is stored as built; a schema validator's refusal is a database error, which is left out above;
  - a copy's status is the sanitised string the handler passes;
  - a copy update's due date is the sanitised text read by the same abstract date parser.
- Body values that are not strings, such as a numeric scalar `genre` that `new Array(n)` would turn into `n` empty slots: every body value is a string or, for `genre`, an array of strings.
