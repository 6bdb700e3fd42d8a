/** The express-validator chain every mutation handler runs: presence checks
    that collect field errors in chain order, then trim-and-escape
    sanitisation, plus the shape normalisation of a book's genre input. */
module Validation {
  import opened Tables
  import opened Text

  /** A date as MongoDB stores it: milliseconds since the epoch. */
  type Date = int

  /** The validator.js functions whose bodies are not part of this model:
      `escape` (HTML entity escaping), `isISO8601`, and the date parser
      behind `toDate` and Mongoose's Date cast. Nothing is assumed about
      them; in particular `escape` is not assumed idempotent. */
  datatype Sanitizers = Sanitizers(
    escape: string -> string,
    isIso8601: string -> bool,
    parseDate: string -> Option<Date>)

  /** `sanitizeBody(f).trim().escape()`. */
  function TrimEscape(env: Sanitizers, raw: string): string {
    env.escape(Trim(raw))
  }

  /** The sanitised value is the escape of the input with its surrounding
      whitespace, and only that, stripped; a value of blanks only escapes
      the empty string. */
  lemma TrimEscapeStripsBlanks(env: Sanitizers, raw: string)
    ensures exists t, i :: TrimmedAt(raw, t, i) && TrimEscape(env, raw) == env.escape(t)
                           && (|t| > 0 ==> !IsWhitespace(t[0]) && !IsWhitespace(t[|t| - 1]))
    ensures AllWhitespace(raw) ==> TrimEscape(env, raw) == env.escape("")
  {
    TrimEmptyIffWhitespace(raw);
  }

  /** Trimming before the sanitiser changes nothing: the sanitiser trims
      again, and trimming twice is trimming once. */
  lemma TrimEscapeOfTrimmed(env: Sanitizers, raw: string)
    ensures TrimEscape(env, Trim(raw)) == TrimEscape(env, raw)
  {
    TrimIdempotent(raw);
  }

  /** validator.js `toDate`: the empty string never parses. */
  function ToDate(env: Sanitizers, raw: string): (d: Option<Date>)
    ensures raw == "" ==> d == None
    ensures raw != "" ==> d == env.parseDate(raw)
  {
    if raw == "" then None else env.parseDate(raw)
  }

  /** `isLength({ min: 1 })`, judged on the raw value: the `.trim()` chained
      after it does not make a whitespace-only value fail. An absent body
      field reads as the empty string. */
  predicate NonEmpty(raw: string)
    ensures NonEmpty(raw) <==> raw != ""
  {
    |raw| >= 1
  }

  /** The presence check passes a value that trims to something, and also
      one of blanks only; it fails only the empty value. */
  lemma NonEmptyBeforeTrim(raw: string)
    ensures NonEmpty(raw) <==> Trim(raw) != "" || (raw != "" && AllWhitespace(raw))
  {
    TrimEmptyIffWhitespace(raw);
  }

  /** One entry of `validationResult(req).array()`. */
  datatype FieldError = FieldError(field: string, message: string)

  /** One `body(field, message)` check and whether the value passed it. */
  datatype Check = Check(field: string, message: string, passed: bool)

  /** No field is checked twice in one chain. */
  predicate FieldsDistinct(checks: seq<Check>) {
    forall i, j :: 0 <= i < j < |checks| ==> checks[i].field != checks[j].field
  }

  /** `errs` carries a check's error exactly when that check failed, and
      carries nothing a failed check did not produce. */
  predicate ReportsExactly(errs: seq<FieldError>, checks: seq<Check>) {
    && (forall i :: 0 <= i < |checks| ==> (FieldError(checks[i].field, checks[i].message) in errs <==> !checks[i].passed))
    && (forall e :: e in errs ==>
          exists i :: 0 <= i < |checks| && !checks[i].passed && e == FieldError(checks[i].field, checks[i].message))
  }

  /** The errors of a validation chain, in chain order: one per failed
      check, none for a passed one. */
  function Errors(checks: seq<Check>): (errs: seq<FieldError>)
    ensures errs == [] <==> forall i :: 0 <= i < |checks| ==> checks[i].passed
    ensures forall c :: c in checks && !c.passed ==> FieldError(c.field, c.message) in errs
    ensures forall e :: e in errs ==> exists c :: c in checks && !c.passed && e == FieldError(c.field, c.message)
    ensures |errs| <= |checks|
  {
    if checks == [] then []
    else
      var rest := Errors(checks[1..]);
      assert forall c :: c in checks[1..] ==> c in checks;
      if checks[0].passed then rest
      else [FieldError(checks[0].field, checks[0].message)] + rest
  }

  /** When no field is checked twice, the reported errors name exactly the
      failed checks. */
  lemma ErrorsReportExactly(checks: seq<Check>)
    requires FieldsDistinct(checks)
    ensures ReportsExactly(Errors(checks), checks)
  {
    var errs := Errors(checks);
    forall i | 0 <= i < |checks|
      ensures FieldError(checks[i].field, checks[i].message) in errs <==> !checks[i].passed
    {
      var e := FieldError(checks[i].field, checks[i].message);
      if e in errs {
        var c :| c in checks && !c.passed && e == FieldError(c.field, c.message);
        var j :| 0 <= j < |checks| && checks[j] == c;
        assert i == j;
      } else {
        assert checks[i] in checks;
      }
    }
    forall e | e in errs
      ensures exists i :: 0 <= i < |checks| && !checks[i].passed && e == FieldError(checks[i].field, checks[i].message)
    {
      var c :| c in checks && !c.passed && e == FieldError(c.field, c.message);
      var j :| 0 <= j < |checks| && checks[j] == c;
    }
  }

  /** `a` occurs in `errs` before `b`. */
  predicate InOrder(errs: seq<FieldError>, a: FieldError, b: FieldError) {
    exists p, q :: 0 <= p < q < |errs| && errs[p] == a && errs[q] == b
  }

  lemma InOrderBehind(x: FieldError, errs: seq<FieldError>, a: FieldError, b: FieldError)
    requires InOrder(errs, a, b)
    ensures InOrder([x] + errs, a, b)
  {
    var p, q :| 0 <= p < q < |errs| && errs[p] == a && errs[q] == b;
    assert ([x] + errs)[p + 1] == a && ([x] + errs)[q + 1] == b;
  }

  lemma InOrderFirst(a: FieldError, errs: seq<FieldError>, b: FieldError)
    requires b in errs
    ensures InOrder([a] + errs, a, b)
  {
    var q :| 0 <= q < |errs| && errs[q] == b;
    assert ([a] + errs)[0] == a && ([a] + errs)[q + 1] == b;
  }

  /** The errors come in chain order: of two failed checks, the earlier
      one's error is reported before the later one's. */
  lemma {:induction false} ErrorsInChainOrder(checks: seq<Check>, i: int, j: int)
    requires 0 <= i < j < |checks| && !checks[i].passed && !checks[j].passed
    ensures InOrder(Errors(checks), FieldError(checks[i].field, checks[i].message),
                    FieldError(checks[j].field, checks[j].message))
    decreases |checks|
  {
    var rest := checks[1..];
    var ei := FieldError(checks[i].field, checks[i].message);
    var ej := FieldError(checks[j].field, checks[j].message);
    if i == 0 {
      assert rest[j - 1] == checks[j] && rest[j - 1] in rest;
      InOrderFirst(ei, Errors(rest), ej);
    } else {
      ErrorsInChainOrder(rest, i - 1, j - 1);
      if !checks[0].passed {
        InOrderBehind(FieldError(checks[0].field, checks[0].message), Errors(rest), ei, ej);
      }
    }
  }

  /** A chain of one check reports that check's error alone, or nothing. */
  lemma ErrorsOfOne(c: Check)
    ensures Errors([c]) == if c.passed then [] else [FieldError(c.field, c.message)]
  {
    assert [c][1..] == [];
  }

  /** `req.body.genre` as the body parser delivers it: missing, one value,
      or several. */
  datatype GenreInput = Absent | Single(value: string) | Many(values: seq<string>)

  /** The first middleware of book create and update: absent becomes `[]`,
      a scalar `g` becomes `new Array(g)`, i.e. `[g]`, and an array passes
      through unchanged. */
  function GenreArray(g: GenreInput): (gs: seq<string>)
    ensures g.Absent? ==> gs == []
    ensures g.Single? ==> gs == [g.value]
    ensures g.Many? ==> gs == g.values
  {
    match g
    case Absent => []
    case Single(v) => [v]
    case Many(vs) => vs
  }
}
