/**
 * The exception handlers: each exception the catalog raises becomes a fixed
 * response body and HTTP status, and a refused save lists the message of
 * every violated constraint after a fixed prefix.
 */
module MovieExceptionController {
  import opened Wrappers
  import opened Text
  import opened Validation
  import opened Errors

  datatype HttpStatus = NotFound | Conflict | Forbidden

  /** The numeric status line code. */
  function StatusCode(s: HttpStatus): nat {
    match s
    case NotFound => 404
    case Conflict => 409
    case Forbidden => 403
  }

  datatype Response = Response(body: string, status: HttpStatus)

  const NotFoundBody: string := "Movie not found"
  const AlreadyExistsBody: string := "Movie already exists"
  const ViolationPrefix: string := "Action violated the following rule(s): "
  const IntegrityBody: string := "Potentially malicious action detected"

  /** `order` visits every element of `v` exactly once: one pass of the set's iterator. */
  predicate Enumerates(order: seq<Constraint>, v: set<Constraint>) {
    && (forall i | 0 <= i < |order| :: order[i] in v)
    && (forall c | c in v :: c in order)
    && (forall i, j | 0 <= i < j < |order| :: order[i] != order[j])
  }

  /** The messages of the violations in the order the iterator yields them. */
  function MessagesInOrder(order: seq<Constraint>): (ms: seq<string>)
    ensures |ms| == |order|
    ensures forall i | 0 <= i < |order| :: ms[i] == Message(order[i])
  {
    if |order| == 0 then [] else [Message(order[0])] + MessagesInOrder(order[1..])
  }

  /**
   * The report loop: append each message and, while the iterator has more,
   * the separator. It builds the messages joined by ", ".
   */
  method AppendViolations(messages: seq<string>) returns (report: string)
    ensures report == Join(messages, ReportSeparator)
  {
    report := "";
    var i := 0;
    while i < |messages|
      invariant 0 <= i <= |messages|
      invariant i == 0 ==> report == ""
      invariant 0 < i < |messages| ==> report == Join(messages[..i], ReportSeparator) + ReportSeparator
      invariant 0 < i == |messages| ==> report == Join(messages[..i], ReportSeparator)
    {
      if i > 0 {
        assert messages[..i + 1] == messages[..i] + [messages[i]];
        JoinAppend(messages[..i], messages[i], ReportSeparator);
      } else {
        assert messages[..1] == [messages[0]];
      }
      report := report + messages[i];
      if i + 1 < |messages| {
        report := report + ReportSeparator;
      }
      i := i + 1;
    }
    assert messages[..|messages|] == messages;
  }

  /** The ConstraintViolationException handler. */
  method ViolationResponse(violations: set<Constraint>, order: seq<Constraint>) returns (r: Response)
    requires Enumerates(order, violations)
    ensures r == ExceptionResponse(ConstraintViolation(violations), order).value
  {
    var report := AppendViolations(MessagesInOrder(order));
    r := Response(ViolationPrefix + report, Forbidden);
  }

  /**
   * The response the handlers give each exception, with `order` the
   * iteration order of the violation set. A failed single-result lookup has
   * no handler here and is left to the framework's default.
   */
  function ExceptionResponse(e: Error, order: seq<Constraint>): (r: Option<Response>)
    requires e.ConstraintViolation? ==> Enumerates(order, e.violations)
    ensures r.None? <==> e.IncorrectResultSize?
    ensures e.MovieNotFound? ==> r == Some(Response(NotFoundBody, NotFound))
    ensures e.MovieAlreadyExists? ==> r == Some(Response(AlreadyExistsBody, Conflict))
    ensures e.DataIntegrityViolation? ==> r == Some(Response(IntegrityBody, Forbidden))
    ensures e.ConstraintViolation? ==>
      && r.Some?
      && r.value.status == Forbidden
      && r.value.body == ViolationPrefix + Join(MessagesInOrder(order), ReportSeparator)
  {
    match e
    case MovieNotFound => Some(Response(NotFoundBody, NotFound))
    case MovieAlreadyExists => Some(Response(AlreadyExistsBody, Conflict))
    case ConstraintViolation(_) =>
      Some(Response(ViolationPrefix + Join(MessagesInOrder(order), ReportSeparator), Forbidden))
    case DataIntegrityViolation => Some(Response(IntegrityBody, Forbidden))
    case IncorrectResultSize => None
  }

  /** The status codes of the handled exceptions: 404, 409, and 403 for both refusals. */
  lemma StatusCodes(e: Error, order: seq<Constraint>)
    requires e.ConstraintViolation? ==> Enumerates(order, e.violations)
    requires !e.IncorrectResultSize?
    ensures StatusCode(ExceptionResponse(e, order).value.status) == match e
      case MovieNotFound => 404
      case MovieAlreadyExists => 409
      case _ => 403
  {
  }

  /** The violation report holds the message of every violated constraint. */
  lemma ReportNamesEveryViolation(violations: set<Constraint>, order: seq<Constraint>)
    requires Enumerates(order, violations)
    ensures forall c | c in violations ::
      Contains(ExceptionResponse(ConstraintViolation(violations), order).value.body, Message(c))
  {
    var ms := MessagesInOrder(order);
    var report := Join(ms, ReportSeparator);
    JoinContainsParts(ms, ReportSeparator);
    forall c | c in violations
      ensures Contains(ViolationPrefix + report, Message(c))
    {
      var i :| 0 <= i < |order| && order[i] == c;
      assert ms[i] == Message(c);
      ContainsInConcat(ViolationPrefix, report, Message(c));
    }
  }

  /** No violations leave the prefix alone; one violation gives the prefix and its message verbatim. */
  lemma ReportOfFewViolations(c: Constraint)
    ensures ExceptionResponse(ConstraintViolation({}), []).value.body == ViolationPrefix
    ensures ExceptionResponse(ConstraintViolation({c}), [c]).value.body == ViolationPrefix + Message(c)
  {
    assert MessagesInOrder([c]) == [Message(c)];
  }

  /**
   * With messages free of commas, the text after the prefix splits at each
   * ", " back into the messages in iteration order, one per violation: no
   * separator leads, trails or doubles.
   */
  lemma ReportSplitsIntoMessages(violations: set<Constraint>, order: seq<Constraint>)
    requires Enumerates(order, violations) && violations != {}
    requires forall c | c in violations :: ',' !in Message(c)
    ensures SplitReport(ExceptionResponse(ConstraintViolation(violations), order).value.body[|ViolationPrefix|..])
      == MessagesInOrder(order)
    ensures |MessagesInOrder(order)| == |violations|
  {
    var ms := MessagesInOrder(order);
    var c :| c in violations;
    assert c in order;
    forall p | p in ms
      ensures ',' !in p
    {
      var i :| 0 <= i < |ms| && ms[i] == p;
      assert order[i] in violations;
    }
    SplitJoin(ms);
    var body := ExceptionResponse(ConstraintViolation(violations), order).value.body;
    assert body[|ViolationPrefix|..] == Join(ms, ReportSeparator);
    EnumerationSize(order, violations);
  }

  /** An enumeration of a set is as long as the set is large. */
  lemma {:induction false} EnumerationSize(order: seq<Constraint>, v: set<Constraint>)
    requires Enumerates(order, v)
    ensures |order| == |v|
    decreases |order|
  {
    if |order| > 0 {
      var rest := order[1..];
      var c := order[0];
      assert c !in rest by {
        forall i | 0 <= i < |rest|
          ensures rest[i] != c
        {
          assert rest[i] == order[i + 1];
        }
      }
      assert Enumerates(rest, v - {c}) by {
        forall d | d in v - {c}
          ensures d in rest
        {
          var i :| 0 <= i < |order| && order[i] == d;
          assert i > 0;
          assert rest[i - 1] == d;
        }
      }
      EnumerationSize(rest, v - {c});
    }
  }
}
