/**
 * The Express error handler of backend/middleware/error.js: how an error
 * record is turned into an HTTP status and a JSON body. The handler starts
 * from defaults and lets three checks override them in turn; the model
 * states that sequence as a method and proves it equal to a rule list read
 * in priority order (the last matching check wins).
 */
module ErrorMiddleware {
  import opened Wrappers
  import opened Text

  /**
   * The parts of an error the handler reads. A JavaScript `undefined` (or any
   * falsy value the handler treats alike) is `None`. `errors` holds the
   * `message` of each nested validation error in `Object.values` order;
   * `keyValue` holds the keys of the duplicate-key object in `Object.keys` order.
   */
  datatype ErrorRecord = ErrorRecord(
    name: string,
    message: Option<string>,
    statusCode: Option<int>,
    code: Option<int>,
    errors: Option<seq<Option<string>>>,
    keyValue: Option<seq<string>>,
    stack: Option<string>)

  /** The JSON body: `{ error }`, or `{ error, stack }` in development. */
  datatype Body = Body(error: string, stack: Option<string>)

  /**
   * What the handler does: answer with a status and a body, or throw a
   * `TypeError` itself (`Object.values(undefined)`, `Object.keys(undefined)`,
   * or `charAt` on the `undefined` first key of an empty object).
   */
  datatype Outcome = Sent(status: int, body: Body) | Threw

  const ValidationErrorName: string := "ValidationError"
  const CastErrorName: string := "CastError"
  const DuplicateKeyCode: int := 11000
  const DefaultMessageText: string := "Internal Server Error"
  const InvalidIdMessage: string := "Invalid resource ID."
  const Development: string := "development"

  /** `err.statusCode || 500`: a missing or zero status gives 500. */
  function DefaultStatus(err: ErrorRecord): (s: int)
    ensures s == 500 <==> err.statusCode.None? || err.statusCode.value == 0 || err.statusCode.value == 500
    ensures s != 500 ==> err.statusCode == Some(s)
  {
    if err.statusCode.Some? && err.statusCode.value != 0 then err.statusCode.value else 500
  }

  /** `err.message || 'Internal Server Error'`: a missing or empty message gives the default. */
  function DefaultMessage(err: ErrorRecord): (m: string)
    ensures m != []
    ensures err.message.Some? && err.message.value != [] ==> m == err.message.value
    ensures err.message.None? || err.message.value == [] ==> m == DefaultMessageText
  {
    if err.message.Some? && err.message.value != [] then err.message.value else DefaultMessageText
  }

  /**
   * `.map(e => e.message).join('. ')`: the nested messages separated by
   * `. `, a missing message rendered as nothing.
   */
  function ValidationMessage(messages: seq<Option<string>>): (m: string)
    ensures messages == [] ==> m == ""
    ensures |messages| == 1 ==> m == messages[0].GetOr("")
    ensures |messages| > 1 ==>
              m == ValidationMessage(messages[..|messages| - 1]) + ". " + messages[|messages| - 1].GetOr("")
    decreases |messages|
  {
    var parts := seq(|messages|, i requires 0 <= i < |messages| => messages[i].GetOr(""));
    if |messages| > 1 then
      var init := messages[..|messages| - 1];
      var initParts := seq(|init|, i requires 0 <= i < |init| => init[i].GetOr(""));
      assert parts == initParts + [messages[|messages| - 1].GetOr("")];
      JoinSnoc(initParts, messages[|messages| - 1].GetOr(""), ". ");
      Join(parts, ". ")
    else
      Join(parts, ". ")
  }

  /** `field.charAt(0).toUpperCase() + field.slice(1)`. */
  function Capitalize(field: string): (r: string)
    ensures |r| == |field|
    ensures field != [] ==> r[0] == UpperChar(field[0]) && r[1..] == field[1..]
    ensures field != [] && IsLowerAscii(field[0]) ==> IsUpperAscii(r[0])
  {
    if field == [] then [] else [UpperChar(field[0])] + field[1..]
  }

  /** `${Capitalize(field)} already exists.` */
  function DuplicateKeyMessage(field: string): (m: string)
    ensures |m| == |field| + 16
    ensures m[..|field|] == Capitalize(field)
    ensures m[|field|..] == " already exists."
  {
    Capitalize(field) + " already exists."
  }

  /**
   * The handler read as a rule list: it throws when a check it reaches needs
   * data the error lacks; otherwise a `CastError` decides, else a duplicate
   * key, else a validation error, else the defaults; the stack is shown only
   * in development. The status is always 400, 409, 500 or a non-zero status
   * the error carries.
   */
  function Classify(err: ErrorRecord, development: bool): (out: Outcome)
    ensures out.Threw? <==>
              (err.name == ValidationErrorName && err.errors.None?) ||
              (err.code == Some(DuplicateKeyCode) && (err.keyValue.None? || err.keyValue.value == []))
    ensures out.Sent? ==>
              var s := out.status;
              s == 400 || s == 409 || s == 500 || (s != 0 && err.statusCode == Some(s))
    ensures out.Sent? ==> out.body.stack == (if development then err.stack else None)
  {
    if err.name == ValidationErrorName && err.errors.None? then Threw
    else if err.code == Some(DuplicateKeyCode) && (err.keyValue.None? || err.keyValue.value == []) then Threw
    else
      var status :=
        if err.name == CastErrorName then 400
        else if err.code == Some(DuplicateKeyCode) then 409
        else if err.name == ValidationErrorName then 400
        else DefaultStatus(err);
      var message :=
        if err.name == CastErrorName then InvalidIdMessage
        else if err.code == Some(DuplicateKeyCode) then DuplicateKeyMessage(err.keyValue.value[0])
        else if err.name == ValidationErrorName then ValidationMessage(err.errors.value)
        else DefaultMessage(err);
      Sent(status, Body(message, if development then err.stack else None))
  }

  /**
   * `errorMiddleware`: the defaults, overridden in turn by the validation,
   * duplicate-key and cast checks, then the response. It agrees with the
   * rule list on every error and environment.
   */
  method HandleError(err: ErrorRecord, nodeEnv: Option<string>) returns (out: Outcome)
    ensures out == Classify(err, nodeEnv == Some(Development))
  {
    var statusCode := DefaultStatus(err);
    var message := DefaultMessage(err);
    if err.name == ValidationErrorName {
      if err.errors.None? {
        return Threw;
      }
      statusCode := 400;
      message := ValidationMessage(err.errors.value);
    }
    if err.code == Some(DuplicateKeyCode) {
      if err.keyValue.None? || err.keyValue.value == [] {
        return Threw;
      }
      statusCode := 409;
      message := DuplicateKeyMessage(err.keyValue.value[0]);
    }
    if err.name == CastErrorName {
      statusCode := 400;
      message := InvalidIdMessage;
    }
    if nodeEnv == Some(Development) {
      return Sent(statusCode, Body(message, err.stack));
    }
    return Sent(statusCode, Body(message, None));
  }

  /** An error none of the checks recognise keeps the defaults. */
  lemma DefaultsKept(err: ErrorRecord, development: bool)
    requires err.name != ValidationErrorName && err.name != CastErrorName
    requires err.code != Some(DuplicateKeyCode)
    ensures Classify(err, development).Sent?
    ensures Classify(err, development).status == (if err.statusCode.Some? && err.statusCode.value != 0 then err.statusCode.value else 500)
    ensures Classify(err, development).body.error ==
              (if err.message.Some? && err.message.value != [] then err.message.value else "Internal Server Error")
  {
  }

  /** A validation error answers 400 with its nested messages joined by `. `. */
  lemma ValidationAnswers400(err: ErrorRecord, development: bool)
    requires err.name == ValidationErrorName && err.errors.Some?
    requires err.code != Some(DuplicateKeyCode)
    ensures Classify(err, development) == Sent(400, Body(ValidationMessage(err.errors.value), if development then err.stack else None))
  {
  }

  /** Two nested messages, the second missing, give `first. `. */
  lemma ValidationMessageExample(first: string)
    ensures ValidationMessage([Some(first), None]) == first + ". "
  {
    var parts := seq(2, i requires 0 <= i < 2 => [Some(first), None][i].GetOr(""));
    assert parts == [first] + [""];
    JoinSnoc([first], "", ". ");
    assert Join([first], ". ") == first by {
      assert [first][1..] == [];
    }
  }

  /**
   * A duplicate key answers 409 naming the first key, capitalised, even when
   * the error is also a validation error.
   */
  lemma DuplicateKeyAnswers409(err: ErrorRecord, development: bool)
    requires err.code == Some(DuplicateKeyCode) && err.name != CastErrorName
    requires err.name == ValidationErrorName ==> err.errors.Some?
    requires err.keyValue.Some? && err.keyValue.value != []
    ensures var out := Classify(err, development);
            && out.Sent? && out.status == 409
            && out.body.error == Capitalize(err.keyValue.value[0]) + " already exists."
  {
  }

  /** The example of the rule order: a `CastError` with code 11000 and a key ends as 400. */
  lemma CastErrorOverridesDuplicateKey(err: ErrorRecord, development: bool)
    requires err.name == CastErrorName
    requires err.code == Some(DuplicateKeyCode) && err.keyValue.Some? && err.keyValue.value != []
    ensures Classify(err, development) == Sent(400, Body("Invalid resource ID.", if development then err.stack else None))
  {
  }

  /** Whatever else it carries, a `CastError` the earlier checks let through answers 400. */
  lemma CastErrorAnswers400(err: ErrorRecord, development: bool)
    requires err.name == CastErrorName
    requires err.code == Some(DuplicateKeyCode) ==> err.keyValue.Some? && err.keyValue.value != []
    ensures Classify(err, development).Sent?
    ensures Classify(err, development).status == 400
    ensures Classify(err, development).body.error == "Invalid resource ID."
  {
  }

  /**
   * The stack is shown only in development, and there it is the error's own;
   * nothing but the stack depends on the environment.
   */
  lemma StackOnlyInDevelopment(err: ErrorRecord, nodeEnv: Option<string>, otherEnv: Option<string>)
    requires otherEnv != Some(Development)
    ensures var out := Classify(err, nodeEnv == Some(Development));
            var prod := Classify(err, false);
            && (out.Sent? ==> out.body.stack == (if nodeEnv == Some(Development) then err.stack else None))
            && (out.Threw? <==> prod.Threw?)
            && (out.Sent? ==> out.status == prod.status && out.body.error == prod.body.error)
            && Classify(err, otherEnv == Some(Development)) == prod
  {
  }
}
