/**
 * The Express error middleware of backend/middleware/error.js: a first-match
 * chain from the kind of a thrown error to an HTTP status and message, always
 * with `success: false`.
 */
module ErrorHandler {
  import opened Basics
  import opened CandidateSchema
  import opened Http

  /** The parts of a thrown error the handler reads. */
  datatype AppError = AppError(
    name: string,
    code: Option<int>,        // a numeric `code`; a missing or non-numeric one is None
    errors: seq<FieldError>,  // `errors` of a ValidationError, in insertion order
    statusCode: Option<int>,
    message: Option<string>)

  /** The messages of a list of validator failures, in order. */
  function MessagesOf(errors: seq<FieldError>): (texts: seq<string>)
    ensures |texts| == |errors|
    ensures forall i :: 0 <= i < |errors| ==> texts[i] == errors[i].message
  {
    if errors == [] then [] else [errors[0].message] + MessagesOf(errors[1..])
  }

  /** `err.statusCode || 500`. */
  function FallbackStatus(statusCode: Option<int>): int {
    match statusCode
    case Some(s) => if s != 0 then s else 500
    case None => 500
  }

  /** `err.message || 'Server Error'`. */
  function FallbackMessage(message: Option<string>): string {
    match message
    case Some(m) => if m != "" then m else "Server Error"
    case None => "Server Error"
  }

  /** The response the middleware sends for `err`. */
  function Handle(err: AppError): (r: Response)
    ensures !r.success
    ensures r.status == 400 || r.status == 401 || r.status == FallbackStatus(err.statusCode)
  {
    if err.name == "CastError" then
      Response(400, false, Message("Resource not found"))
    else if err.code == Some(11000) then
      Response(400, false, Message("Duplicate field value entered"))
    else if err.name == "ValidationError" then
      Response(400, false, Messages(MessagesOf(err.errors)))
    else if err.name == "JsonWebTokenError" then
      Response(401, false, Message("Invalid token"))
    else if err.name == "TokenExpiredError" then
      Response(401, false, Message("Token expired"))
    else
      Response(FallbackStatus(err.statusCode), false, Message(FallbackMessage(err.message)))
  }

  /** One line of the handler's table: when it applies and what it answers. */
  datatype Rule = Rule(applies: AppError -> bool, respond: AppError -> Response)

  /** The handler's rules as a table, in the order they are tried. */
  function Rules(): seq<Rule> {
    [ Rule((e: AppError) => e.name == "CastError", (e: AppError) => Response(400, false, Message("Resource not found"))),
      Rule((e: AppError) => e.code == Some(11000), (e: AppError) => Response(400, false, Message("Duplicate field value entered"))),
      Rule((e: AppError) => e.name == "ValidationError", (e: AppError) => Response(400, false, Messages(MessagesOf(e.errors)))),
      Rule((e: AppError) => e.name == "JsonWebTokenError", (e: AppError) => Response(401, false, Message("Invalid token"))),
      Rule((e: AppError) => e.name == "TokenExpiredError", (e: AppError) => Response(401, false, Message("Token expired"))) ]
  }

  /** The answer of the first rule that applies, or the default 500 answer. */
  function FirstMatch(rules: seq<Rule>, err: AppError): Response {
    if rules == [] then Response(FallbackStatus(err.statusCode), false, Message(FallbackMessage(err.message)))
    else if rules[0].applies(err) then rules[0].respond(err)
    else FirstMatch(rules[1..], err)
  }

  /** The handler is the first-match reading of its table. */
  lemma HandleIsFirstMatch(err: AppError)
    ensures Handle(err) == FirstMatch(Rules(), err)
  {
    var r := Rules();
    if !r[0].applies(err) {
      assert FirstMatch(r, err) == FirstMatch(r[1..], err);
      if !r[1].applies(err) {
        assert FirstMatch(r[1..], err) == FirstMatch(r[2..], err);
        if !r[2].applies(err) {
          assert FirstMatch(r[2..], err) == FirstMatch(r[3..], err);
          if !r[3].applies(err) {
            assert FirstMatch(r[3..], err) == FirstMatch(r[4..], err);
            if !r[4].applies(err) {
              assert FirstMatch(r[4..], err) == FirstMatch(r[5..], err);
              assert r[5..] == [];
            }
          }
        }
      }
    }
  }

  /** A CastError is reported as "Resource not found" whatever else it carries. */
  lemma CastErrorFirst(err: AppError)
    requires err.name == "CastError"
    ensures Handle(err) == Response(400, false, Message("Resource not found"))
  {
  }

  /**
   * A duplicate-key error is reported as such unless it is a CastError, even
   * when its name says ValidationError.
   */
  lemma DuplicateKeyBeforeValidation(err: AppError)
    requires err.name != "CastError" && err.code == Some(11000)
    ensures Handle(err) == Response(400, false, Message("Duplicate field value entered"))
  {
  }

  /** The two token errors are 401s with their own messages. */
  lemma TokenErrors(err: AppError)
    requires err.name != "CastError" && err.code != Some(11000)
    ensures err.name == "JsonWebTokenError" ==> Handle(err) == Response(401, false, Message("Invalid token"))
    ensures err.name == "TokenExpiredError" ==> Handle(err) == Response(401, false, Message("Token expired"))
  {
  }

  /** Any other error keeps a truthy `statusCode` and `message`, else gets 500 and "Server Error". */
  lemma OtherErrors(err: AppError)
    requires err.name !in {"CastError", "ValidationError", "JsonWebTokenError", "TokenExpiredError"}
    requires err.code != Some(11000)
    ensures Handle(err).status == (if err.statusCode.Some? && err.statusCode.value != 0 then err.statusCode.value else 500)
    ensures Handle(err).body == Message(if err.message.Some? && err.message.value != "" then err.message.value else "Server Error")
  {
  }

  /**
   * The ValidationError a rejected create raises is answered with 400 and the
   * list of its field messages, so a missing first name, last name or email is
   * named by its own message.
   */
  lemma ValidationErrorOfCreate(b: CandidateBody, code: Option<int>, statusCode: Option<int>, message: Option<string>)
    requires code != Some(11000)
    ensures var r := Handle(AppError("ValidationError", code, CreateErrors(b), statusCode, message));
      && r.status == 400 && r.body.Messages?
      && r.body.texts == MessagesOf(CreateErrors(b))
      && ("Please add a first name" in r.body.texts <==> !Present(b.firstName))
      && ("Please add a last name" in r.body.texts <==> !Present(b.lastName))
      && ("Please add an email" in r.body.texts <==> !Present(b.email))
  {
    MissingRequiredReported(b);
    RequiredMessageListed(b, FirstNameRequired);
    RequiredMessageListed(b, LastNameRequired);
    RequiredMessageListed(b, EmailRequired);
  }

  /** A message is in the list exactly when some failure carries it. */
  lemma MessagesOfMembership(e: seq<FieldError>, m: string)
    ensures m in MessagesOf(e) <==> exists x :: x in e && x.message == m
  {
    var texts := MessagesOf(e);
    if m in texts {
      var i :| 0 <= i < |texts| && texts[i] == m;
      assert e[i] in e;
    }
    if exists x :: x in e && x.message == m {
      var x :| x in e && x.message == m;
      var i :| 0 <= i < |e| && e[i] == x;
      assert texts[i] == m;
    }
  }

  /** A required-field message is listed exactly when that required check failed. */
  lemma RequiredMessageListed(b: CandidateBody, f: FieldError)
    requires f == FirstNameRequired || f == LastNameRequired || f == EmailRequired
    ensures f.message in MessagesOf(CreateErrors(b)) <==> f in CreateErrors(b)
  {
    var e := CreateErrors(b);
    MessagesOfMembership(e, f.message);
    if f.message in MessagesOf(e) {
      var x :| x in e && x.message == f.message;
      EnumMessageIsNotRequired(x, e, b);
    }
  }

  /** An enum failure's message starts with a backquote, so it is never a required-field message. */
  lemma EnumMessageIsNotRequired(x: FieldError, e: seq<FieldError>, b: CandidateBody)
    requires e == CreateErrors(b) && x in e
    ensures x.message == "Please add a first name" ==> x == FirstNameRequired
    ensures x.message == "Please add a last name" ==> x == LastNameRequired
    ensures x.message == "Please add an email" ==> x == EmailRequired
  {
    if x in StatusErrors(b.status) {
      assert x.message[0] == '`';
    } else if x in SourceErrors(b.source) {
      assert x.message[0] == '`';
    }
  }
}
