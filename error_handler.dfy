/**
 * The REST error mapping: a failed request validation becomes a 400 whose
 * details list every field error, sorted by field name, as "field: message"
 * entries joined by "; "; NotFound becomes a 404 and SessionOpened a 409, each
 * carrying the exception's message and no details.
 */
module ErrorHandler {
  import opened Domain

  const BAD_REQUEST := 400
  const NOT_FOUND := 404
  const CONFLICT := 409

  const INVALID_PARAMETERS := "Par\U{E2}metros inv\U{E1}lidos"
  const SEPARATOR := "; "

  /** One rejected field of a request body; its default message may be null. */
  datatype FieldError = FieldError(field: string, defaultMessage: Option<string>)

  /** The error body; each part may be null. */
  datatype DefaultErrorResponse = DefaultErrorResponse(message: Option<string>, details: Option<string>)

  datatype ResponseEntity = ResponseEntity(status: int, body: DefaultErrorResponse)

  // ---- `String.compareTo` ----

  /**
   * Lexicographic order on strings, character by character; a proper prefix
   * comes first.
   */
  predicate LessEq(a: string, b: string): (r: bool)
    ensures |a| <= |b| && b[..|a|] == a ==> r
    ensures 0 < |a| && 0 < |b| && a[0] != b[0] ==> (r <==> a[0] < b[0])
  {
    if |a| == 0 then true
    else if |b| == 0 then false
    else if a[0] != b[0] then a[0] < b[0]
    else LessEq(a[1..], b[1..])
  }

  /**
   * The general case of the order: when `a` and `b` agree before position `k`
   * and differ at `k`, the characters at `k` decide.
   */
  lemma {:induction false} LessEqFirstDifference(a: string, b: string, k: nat)
    requires k < |a| && k < |b| && a[..k] == b[..k] && a[k] != b[k]
    ensures LessEq(a, b) <==> a[k] < b[k]
  {
    if k > 0 {
      assert a[0] == a[..k][0] == b[..k][0] == b[0];
      assert a[1..][..k - 1] == a[..k][1..] == b[..k][1..] == b[1..][..k - 1];
      LessEqFirstDifference(a[1..], b[1..], k - 1);
    }
  }

  lemma {:induction false} LessEqReflexive(a: string)
    ensures LessEq(a, a)
  {
    if |a| > 0 {
      LessEqReflexive(a[1..]);
    }
  }

  lemma {:induction false} LessEqTotal(a: string, b: string)
    ensures LessEq(a, b) || LessEq(b, a)
  {
    if |a| > 0 && |b| > 0 && a[0] == b[0] {
      LessEqTotal(a[1..], b[1..]);
    }
  }

  lemma {:induction false} LessEqTransitive(a: string, b: string, c: string)
    requires LessEq(a, b) && LessEq(b, c)
    ensures LessEq(a, c)
  {
    if |a| > 0 && |b| > 0 && |c| > 0 && a[0] == b[0] && b[0] == c[0] {
      LessEqTransitive(a[1..], b[1..], c[1..]);
    }
  }

  lemma {:induction false} LessEqAntisymmetric(a: string, b: string)
    requires LessEq(a, b) && LessEq(b, a)
    ensures a == b
  {
    if |a| > 0 && |b| > 0 {
      LessEqAntisymmetric(a[1..], b[1..]);
      assert a == [a[0]] + a[1..] && b == [b[0]] + b[1..];
    }
  }

  // ---- sorting by field name ----

  ghost predicate SortedByField(errors: seq<FieldError>)
  {
    forall i, j :: 0 <= i < j < |errors| ==> LessEq(errors[i].field, errors[j].field)
  }

  /** Inserts `e` before the first entry whose field is not smaller than its own. */
  function Insert(e: FieldError, sorted: seq<FieldError>): (r: seq<FieldError>)
    ensures multiset(r) == multiset(sorted) + multiset{e}
  {
    if |sorted| == 0 then [e]
    else if LessEq(e.field, sorted[0].field) then [e] + sorted
    else
      assert sorted == [sorted[0]] + sorted[1..];
      [sorted[0]] + Insert(e, sorted[1..])
  }

  /**
   * The `sorted(Comparator.comparing(FieldError::getField))` step: a stable
   * sort of the field errors by field name.
   */
  function SortByField(errors: seq<FieldError>): (r: seq<FieldError>)
    ensures multiset(r) == multiset(errors)
    ensures |r| == |errors|
  {
    if |errors| == 0 then []
    else
      assert errors == [errors[0]] + errors[1..];
      Insert(errors[0], SortByField(errors[1..]))
  }

  lemma {:induction false} InsertKeepsSorted(e: FieldError, sorted: seq<FieldError>)
    requires SortedByField(sorted)
    ensures SortedByField(Insert(e, sorted))
  {
    if |sorted| == 0 {
    } else if LessEq(e.field, sorted[0].field) {
      forall k | 0 <= k < |sorted| ensures LessEq(e.field, sorted[k].field) {
        if k > 0 {
          LessEqTransitive(e.field, sorted[0].field, sorted[k].field);
        }
      }
      ConsKeepsSorted(e, sorted);
    } else {
      var rest := sorted[1..];
      SortedTail(sorted);
      InsertKeepsSorted(e, rest);
      LessEqTotal(e.field, sorted[0].field);
      HeadBelowInsertion(e, sorted);
      ConsKeepsSorted(sorted[0], Insert(e, rest));
    }
  }

  lemma SortedTail(sorted: seq<FieldError>)
    requires SortedByField(sorted) && |sorted| > 0
    ensures SortedByField(sorted[1..])
  {
    var rest := sorted[1..];
    forall i, j | 0 <= i < j < |rest| ensures LessEq(rest[i].field, rest[j].field) {
      assert rest[i] == sorted[i + 1] && rest[j] == sorted[j + 1];
    }
  }

  /** The head of a sorted sequence is below everything the insertion into its tail produces. */
  lemma HeadBelowInsertion(e: FieldError, sorted: seq<FieldError>)
    requires SortedByField(sorted) && |sorted| > 0
    requires LessEq(sorted[0].field, e.field)
    ensures forall k :: 0 <= k < |Insert(e, sorted[1..])| ==> LessEq(sorted[0].field, Insert(e, sorted[1..])[k].field)
  {
    var rest := sorted[1..];
    var tail := Insert(e, rest);
    forall k | 0 <= k < |tail| ensures LessEq(sorted[0].field, tail[k].field) {
      assert tail[k] in multiset(tail);
      if tail[k] != e {
        assert tail[k] in multiset(rest);
        var m :| 0 <= m < |rest| && rest[m] == tail[k];
        assert sorted[m + 1] == tail[k];
      }
    }
  }

  lemma ConsKeepsSorted(head: FieldError, sorted: seq<FieldError>)
    requires SortedByField(sorted)
    requires forall k :: 0 <= k < |sorted| ==> LessEq(head.field, sorted[k].field)
    ensures SortedByField([head] + sorted)
  {
    var r := [head] + sorted;
    forall i, j | 0 <= i < j < |r| ensures LessEq(r[i].field, r[j].field) {
      assert r[j] == sorted[j - 1];
      if i > 0 {
        assert r[i] == sorted[i - 1];
      }
    }
  }

  /** Whatever the input order, the details list the field errors by ascending field name. */
  lemma {:induction false} SortByFieldIsSorted(errors: seq<FieldError>)
    ensures SortedByField(SortByField(errors))
  {
    if |errors| > 0 {
      SortByFieldIsSorted(errors[1..]);
      InsertKeepsSorted(errors[0], SortByField(errors[1..]));
    }
  }

  /** The errors for one field name, in their order. */
  function WithField(errors: seq<FieldError>, field: string): seq<FieldError>
  {
    if |errors| == 0 then []
    else (if errors[0].field == field then [errors[0]] else []) + WithField(errors[1..], field)
  }

  lemma WithFieldCons(x: FieldError, rest: seq<FieldError>, field: string)
    ensures WithField([x] + rest, field) == (if x.field == field then [x] else []) + WithField(rest, field)
  {
    assert ([x] + rest)[1..] == rest;
  }

  lemma {:induction false} InsertIsStable(e: FieldError, sorted: seq<FieldError>, field: string)
    ensures WithField(Insert(e, sorted), field)
         == (if e.field == field then [e] else []) + WithField(sorted, field)
  {
    if |sorted| == 0 {
      WithFieldCons(e, [], field);
    } else if LessEq(e.field, sorted[0].field) {
      WithFieldCons(e, sorted, field);
    } else {
      var head := sorted[0];
      var tail := Insert(e, sorted[1..]);
      InsertIsStable(e, sorted[1..], field);
      WithFieldCons(head, tail, field);
      WithFieldCons(head, sorted[1..], field);
      assert sorted == [head] + sorted[1..];
      if e.field == field {
        LessEqReflexive(e.field);
        assert head.field != field;
      }
    }
  }

  /** The sort is stable: errors on the same field keep their relative order. */
  lemma {:induction false} SortByFieldIsStable(errors: seq<FieldError>, field: string)
    ensures WithField(SortByField(errors), field) == WithField(errors, field)
  {
    if |errors| > 0 {
      SortByFieldIsStable(errors[1..], field);
      InsertIsStable(errors[0], SortByField(errors[1..]), field);
    }
  }

  // ---- rendering and joining ----

  /** `String.valueOf(defaultMessage)`: a null message reads "null". */
  function MessageText(message: Option<string>): (r: string)
    ensures message.None? ==> r == "null"
    ensures message.Some? ==> r == message.value
  {
    match message
    case None => "null"
    case Some(m) => m
  }

  /** One entry of the details: "field: message". */
  function Render(e: FieldError): (r: string)
    ensures |r| == |e.field| + 2 + |MessageText(e.defaultMessage)|
    ensures r[..|e.field|] == e.field
    ensures r[|e.field|..|e.field| + 2] == ": "
    ensures r[|e.field| + 2..] == MessageText(e.defaultMessage)
  {
    e.field + ": " + MessageText(e.defaultMessage)
  }

  function RenderAll(errors: seq<FieldError>): (r: seq<string>)
    ensures |r| == |errors|
    ensures forall i :: 0 <= i < |errors| ==> r[i] == Render(errors[i])
  {
    if |errors| == 0 then [] else [Render(errors[0])] + RenderAll(errors[1..])
  }

  /** `Collectors.joining("; ")`. */
  function Join(entries: seq<string>): (r: string)
    ensures |entries| == 0 ==> r == ""
    ensures |entries| == 1 ==> r == entries[0]
  {
    if |entries| == 0 then ""
    else if |entries| == 1 then entries[0]
    else entries[0] + SEPARATOR + Join(entries[1..])
  }

  /** Joining one more entry adds exactly one separator, between the old text and the entry. */
  lemma {:induction false} JoinSnoc(entries: seq<string>, last: string)
    requires |entries| > 0
    ensures Join(entries + [last]) == Join(entries) + SEPARATOR + last
  {
    if |entries| == 1 {
      assert (entries + [last])[1..] == [last];
    } else {
      assert (entries + [last])[1..] == entries[1..] + [last];
      JoinSnoc(entries[1..], last);
    }
  }

  /** The joined text starts with the first entry and ends with the last one: no separator leads or trails. */
  lemma {:induction false} JoinBoundaries(entries: seq<string>)
    requires |entries| > 0
    ensures |entries[0]| <= |Join(entries)| && Join(entries)[..|entries[0]|] == entries[0]
    ensures |entries[|entries| - 1]| <= |Join(entries)|
    ensures Join(entries)[|Join(entries)| - |entries[|entries| - 1]|..] == entries[|entries| - 1]
  {
    if |entries| > 1 {
      JoinBoundaries(entries[1..]);
    }
  }

  function TotalLength(entries: seq<string>): nat
  {
    if |entries| == 0 then 0 else |entries[0]| + TotalLength(entries[1..])
  }

  /** The joined text is the entries plus one two-character separator between each neighbouring pair, and nothing else. */
  lemma {:induction false} JoinLength(entries: seq<string>)
    requires |entries| > 0
    ensures |Join(entries)| == TotalLength(entries) + 2 * (|entries| - 1)
  {
    if |entries| > 1 {
      JoinLength(entries[1..]);
    }
  }

  /** The `details` text of a validation failure. */
  function Details(errors: seq<FieldError>): (r: string)
    ensures |errors| == 0 ==> r == ""
    ensures |errors| == 1 ==> r == Render(errors[0])
  {
    Join(RenderAll(SortByField(errors)))
  }

  /** Every field error is rendered exactly once: the entries are the rendered inputs, rearranged. */
  lemma {:induction false} DetailsListEachErrorOnce(errors: seq<FieldError>)
    ensures multiset(RenderAll(SortByField(errors))) == multiset(RenderAll(errors))
  {
    if |errors| > 0 {
      DetailsListEachErrorOnce(errors[1..]);
      RenderInsert(errors[0], SortByField(errors[1..]));
    }
  }

  lemma {:induction false} RenderInsert(e: FieldError, sorted: seq<FieldError>)
    ensures multiset(RenderAll(Insert(e, sorted))) == multiset(RenderAll(sorted)) + multiset{Render(e)}
  {
    if |sorted| == 0 {
    } else if LessEq(e.field, sorted[0].field) {
      assert ([e] + sorted)[1..] == sorted;
    } else {
      RenderInsert(e, sorted[1..]);
      var tail := Insert(e, sorted[1..]);
      assert ([sorted[0]] + tail)[1..] == tail;
    }
  }

  /**
   * Two errors given out of order come out sorted: with `second` on a smaller
   * field than `first`, the details are `second`'s entry, "; ", then `first`'s.
   */
  lemma TwoErrorsOutOfOrder(first: FieldError, second: FieldError)
    requires LessEq(second.field, first.field) && second.field != first.field
    ensures Details([first, second]) == Render(second) + SEPARATOR + Render(first)
  {
    assert [first, second][1..] == [second];
    if LessEq(first.field, second.field) {
      LessEqAntisymmetric(first.field, second.field);
    }
    assert SortByField([first, second]) == [second, first];
  }

  // ---- handlers ----

  /** `handleValidError`: 400, the fixed message, and the sorted, joined field errors as details. */
  function HandleValidError(errors: seq<FieldError>): (r: ResponseEntity)
    ensures r.status == BAD_REQUEST
    ensures r.body.message == Some(INVALID_PARAMETERS)
    ensures r.body.details == Some(Details(errors))
  {
    ResponseEntity(BAD_REQUEST, DefaultErrorResponse(Some(INVALID_PARAMETERS), Some(Details(errors))))
  }

  /** `notFoundHandler`: 404 with the exception's message, possibly null, and no details. */
  function NotFoundHandler(message: Option<string>): (r: ResponseEntity)
    ensures r.status == NOT_FOUND && r.body.message == message && r.body.details.None?
  {
    ResponseEntity(NOT_FOUND, DefaultErrorResponse(message, None))
  }

  /** `sessionOpenedHandler`: 409 with the exception's message, possibly null, and no details. */
  function SessionOpenedHandler(message: Option<string>): (r: ResponseEntity)
    ensures r.status == CONFLICT && r.body.message == message && r.body.details.None?
  {
    ResponseEntity(CONFLICT, DefaultErrorResponse(message, None))
  }

  /**
   * The advice's dispatch over the core's exceptions: only NotFound and
   * SessionOpened have a handler here; every other exception is left to the
   * framework's default handling.
   */
  function Handle(e: Error): (r: Option<ResponseEntity>)
    ensures r.Some? <==> e.NotFound? || e.SessionOpened?
    ensures e.NotFound? ==> r == Some(NotFoundHandler(Some(e.message)))
    ensures e.SessionOpened? ==> r == Some(SessionOpenedHandler(Some(e.message)))
  {
    match e
    case NotFound(m) => Some(NotFoundHandler(Some(m)))
    case SessionOpened(m) => Some(SessionOpenedHandler(Some(m)))
    case _ => None
  }
}
