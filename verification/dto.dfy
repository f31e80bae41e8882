/** The JSON envelope every handler answers with: a status word, an optional
    error object and optional data, sent with an HTTP status code. The
    payload type is a parameter, standing in for the untyped `data` field. */
module Dto {
  import opened Wrappers

  const FieldBadFormat: string := "FIELD_BADFORMAT"
  const FieldIncorrect: string := "FIELD_INCORRECT"
  const ServiceUnavailable: string := "SERVICE_UNAVAILABLE"
  const InternalError: string := "Service is currently unavailable. Please try again later."
  const ShortAlreadyExists: string := "SHORT_ALREADY_EXISTS"
  const ShortNotFound: string := "SHORT_NOT_FOUND"

  datatype ErrorBody = ErrorBody(code: string, desc: string)

  datatype Response<D> = Response(status: string, error: Option<ErrorBody>, data: Option<D>)

  /** A JSON reply as written to the wire: HTTP status and body. */
  datatype Sent<D> = Sent(httpStatus: int, body: Response<D>)

  /** An error reply: status word "error", an error object, no data, and a
      4xx or 5xx status. */
  predicate IsErrorEnvelope<D>(s: Sent<D>) {
    && s.body.status == "error" && s.body.error.Some? && s.body.data.None?
    && 400 <= s.httpStatus < 600
  }

  /** A success reply: status word "ok", data, no error object, and a 2xx
      status. */
  predicate IsSuccessEnvelope<D>(s: Sent<D>) {
    && s.body.status == "ok" && s.body.error.None? && s.body.data.Some?
    && 200 <= s.httpStatus < 300
  }

  /** The error code and description of an error reply, if it is one. */
  function ErrorOf<D>(s: Sent<D>): Option<ErrorBody> {
    s.body.error
  }

  function BadResponseError<D>(code: string, desc: string): (s: Sent<D>)
    ensures IsErrorEnvelope(s) && s.httpStatus == 400
    ensures ErrorOf(s) == Some(ErrorBody(code, desc))
  {
    Sent(400, Response("error", Some(ErrorBody(code, desc)), None))
  }

  /** The one reply a store or cache fault surfaces as: no internal detail. */
  function InternalServerError<D>(): (s: Sent<D>)
    ensures IsErrorEnvelope(s) && s.httpStatus == 500
    ensures ErrorOf(s) == Some(ErrorBody(ServiceUnavailable, InternalError))
  {
    Sent(500, Response("error", Some(ErrorBody(ServiceUnavailable, InternalError)), None))
  }

  function BadFormatMessage(fieldName: string): string {
    "Field '" + fieldName + "' has bad format"
  }

  function IncorrectMessage(fieldName: string): string {
    "Field '" + fieldName + "' is incorrect"
  }

  /** The field name an "is incorrect" message was built from. */
  function IncorrectField(desc: string): (name: Option<string>)
    ensures name.Some? ==> IncorrectMessage(name.value) == desc
  {
    var prefix, suffix := "Field '", "' is incorrect";
    if |desc| >= |prefix| + |suffix|
       && desc[..|prefix|] == prefix && desc[|desc| - |suffix|..] == suffix
    then
      var name := desc[|prefix|..|desc| - |suffix|];
      assert desc == prefix + name + suffix;
      Some(name)
    else None
  }

  function FieldBadFormatError<D>(fieldName: string): (s: Sent<D>)
    ensures IsErrorEnvelope(s) && s.httpStatus == 400
    ensures ErrorOf(s) == Some(ErrorBody(FieldBadFormat, BadFormatMessage(fieldName)))
  {
    BadResponseError(FieldBadFormat, BadFormatMessage(fieldName))
  }

  function FieldIncorrectError<D>(fieldName: string): (s: Sent<D>)
    ensures IsErrorEnvelope(s) && s.httpStatus == 400
    ensures ErrorOf(s).Some? && ErrorOf(s).value.code == FieldIncorrect
    ensures IncorrectField(ErrorOf(s).value.desc) == Some(fieldName)
  {
    var s := BadResponseError(FieldIncorrect, IncorrectMessage(fieldName));
    IncorrectFieldRoundTrip(fieldName);
    s
  }

  function ShortAlreadyExistsError<D>(): (s: Sent<D>)
    ensures IsErrorEnvelope(s) && s.httpStatus == 400
    ensures ErrorOf(s) == Some(ErrorBody(ShortAlreadyExists, "Short alias already exists"))
  {
    BadResponseError(ShortAlreadyExists, "Short alias already exists")
  }

  /** A missing short link is reported with 400, not 404. */
  function ShortNotFoundError<D>(): (s: Sent<D>)
    ensures IsErrorEnvelope(s) && s.httpStatus == 400
    ensures ErrorOf(s) == Some(ErrorBody(ShortNotFound, "Short link not found"))
  {
    BadResponseError(ShortNotFound, "Short link not found")
  }

  function SuccessResponse<D>(data: D): (s: Sent<D>)
    ensures IsSuccessEnvelope(s) && s.httpStatus == 200
    ensures s.body.data == Some(data)
  {
    Sent(200, Response("ok", None, Some(data)))
  }

  function SuccessCreatedResponse<D>(data: D): (s: Sent<D>)
    ensures IsSuccessEnvelope(s) && s.httpStatus == 201
    ensures s.body.data == Some(data)
  {
    Sent(201, Response("ok", None, Some(data)))
  }

  /** The field name can be read back from an "is incorrect" message. */
  lemma IncorrectFieldRoundTrip(fieldName: string)
    ensures IncorrectField(IncorrectMessage(fieldName)) == Some(fieldName)
  {
    var desc := IncorrectMessage(fieldName);
    var prefix, suffix := "Field '", "' is incorrect";
    assert desc == prefix + fieldName + suffix;
    assert desc[..|prefix|] == prefix;
    assert desc[|desc| - |suffix|..] == suffix;
    assert desc[|prefix|..|desc| - |suffix|] == fieldName;
  }

  /** Different field names give different "is incorrect" replies. */
  lemma FieldIncorrectInjective<D>(a: string, b: string)
    requires FieldIncorrectError<D>(a) == FieldIncorrectError<D>(b)
    ensures a == b
  {
    IncorrectFieldRoundTrip(a);
    IncorrectFieldRoundTrip(b);
  }
}
