/** The global exception handler: a domain exception becomes an HTTP status chosen by its error
    group, and an error response carrying its code, message and group. */
module ExceptionHandling {
  import opened Common
  import opened DomainErrors
  import opened Policy

  datatype HttpStatus = NOT_FOUND | BAD_REQUEST | CONFLICT | FORBIDDEN | UNAUTHORIZED | INTERNAL_SERVER_ERROR
  {
    function Value(): (code: int)
      ensures code in {404, 400, 409, 403, 401, 500}
    {
      match this
      case NOT_FOUND => 404
      case BAD_REQUEST => 400
      case CONFLICT => 409
      case FORBIDDEN => 403
      case UNAUTHORIZED => 401
      case INTERNAL_SERVER_ERROR => 500
    }
  }

  function UpperChar(c: char): (u: char)
    ensures 'a' <= c <= 'z' ==> u as int == c as int - 32
    ensures !('a' <= c <= 'z') ==> u == c
    ensures !('a' <= u <= 'z')
  {
    if 'a' <= c <= 'z' then (c as int - 32) as char else c
  }

  /** String.toUpperCase restricted to ASCII letters. */
  function ToUpperAscii(s: string): (r: string)
    ensures |r| == |s|
    ensures forall i :: 0 <= i < |s| ==> r[i] == UpperChar(s[i])
  {
    if s == [] then [] else [UpperChar(s[0])] + ToUpperAscii(s[1..])
  }

  /** Upper-casing an upper-cased string changes nothing. */
  lemma {:induction false} ToUpperIsIdempotent(s: string)
    ensures ToUpperAscii(ToUpperAscii(s)) == ToUpperAscii(s)
  {
    if s != [] {
      ToUpperIsIdempotent(s[1..]);
      var u := ToUpperAscii(s);
      assert u[1..] == ToUpperAscii(s[1..]);
    }
  }

  /** The groups with a status of their own, as written in upper case. */
  predicate IsKnownGroup(upper: string)
  {
    upper == "NOT_FOUND" || upper == "BAD_REQUEST" || upper == "INVALID" ||
    upper == "CONFLICT" || upper == "FORBIDDEN" || upper == "UNAUTHORIZED"
  }

  /** mapToHttpStatus: null is a server error; otherwise the upper-cased group picks the status,
      and any group not listed is a server error. */
  function MapToHttpStatus(group: Option<string>): (s: HttpStatus)
    ensures group.None? ==> s == INTERNAL_SERVER_ERROR
    ensures s == NOT_FOUND <==> group.Some? && ToUpperAscii(group.value) == "NOT_FOUND"
    ensures s == BAD_REQUEST <==> group.Some? && (ToUpperAscii(group.value) == "BAD_REQUEST" || ToUpperAscii(group.value) == "INVALID")
    ensures s == CONFLICT <==> group.Some? && ToUpperAscii(group.value) == "CONFLICT"
    ensures s == FORBIDDEN <==> group.Some? && ToUpperAscii(group.value) == "FORBIDDEN"
    ensures s == UNAUTHORIZED <==> group.Some? && ToUpperAscii(group.value) == "UNAUTHORIZED"
    ensures s == INTERNAL_SERVER_ERROR <==> group.None? || !IsKnownGroup(ToUpperAscii(group.value))
  {
    match group
    case None => INTERNAL_SERVER_ERROR
    case Some(g) =>
      var upper := ToUpperAscii(g);
      if upper == "NOT_FOUND" then NOT_FOUND
      else if upper == "BAD_REQUEST" || upper == "INVALID" then BAD_REQUEST
      else if upper == "CONFLICT" then CONFLICT
      else if upper == "FORBIDDEN" then FORBIDDEN
      else if upper == "UNAUTHORIZED" then UNAUTHORIZED
      else INTERNAL_SERVER_ERROR
  }

  /** The mapping ignores ASCII case: a group and its upper-cased form get the same status. */
  lemma MappingIgnoresCase(g: string)
    ensures MapToHttpStatus(Some(ToUpperAscii(g))) == MapToHttpStatus(Some(g))
  {
    ToUpperIsIdempotent(g);
  }

  /** The interface's default group is a server error. */
  lemma DefaultGroupIsServerError()
    ensures MapToHttpStatus(Some(DEFAULT_GROUP)) == INTERNAL_SERVER_ERROR
  {
    UnknownByLength(ToUpperAscii(DEFAULT_GROUP));
    UnknownGroupIsServerError(DEFAULT_GROUP);
  }

  /** No known group has fourteen characters. */
  lemma UnknownByLength(upper: string)
    requires |upper| == 14
    ensures !IsKnownGroup(upper)
  {
  }

  /** A group whose upper-case form is not listed is a server error. */
  lemma UnknownGroupIsServerError(g: string)
    requires !IsKnownGroup(ToUpperAscii(g))
    ensures MapToHttpStatus(Some(g)) == INTERNAL_SERVER_ERROR
  {
  }

  /** A group written in lower or mixed case maps like its upper-case form. */
  lemma LowerCaseGroupsMap()
    ensures MapToHttpStatus(Some("not_found")) == NOT_FOUND
    ensures MapToHttpStatus(Some("Invalid")) == BAD_REQUEST
  {
    UpperCaseOf("not_found", "NOT_FOUND");
    UpperCaseOf("Invalid", "INVALID");
  }

  /** u is the upper-case form of s when they agree character by character. */
  lemma UpperCaseOf(s: string, u: string)
    requires |s| == |u|
    requires forall i :: 0 <= i < |s| ==> UpperChar(s[i]) == u[i]
    ensures ToUpperAscii(s) == u
  {
  }

  /** The response body: ErrorResponse.from reads the code and group from the error code and the
      message from the exception; the timestamp is the clock's reading, passed in. */
  datatype ErrorResponse = ErrorResponse(code: string, message: string, group: Option<string>, timestamp: Timestamp)

  /** handleDomainException: the status from the exception's group, and the response body. */
  function HandleDomainException(exception: DomainException, now: Timestamp): (r: (HttpStatus, ErrorResponse))
    ensures r.0 == MapToHttpStatus(exception.errorCode.group)
    ensures r.1 == ErrorResponse(exception.errorCode.code, exception.message, exception.errorCode.group, now)
  {
    (MapToHttpStatus(exception.GetGroup()), ErrorResponse(exception.GetCode(), exception.message, exception.GetGroup(), now))
  }

  /** An exception built from an error code that keeps the default group, through the
      one-argument constructor, is answered with status 500 and a body carrying the code's own
      code, message and group. */
  lemma DefaultCodeExceptionResponse(code: string, message: string, now: Timestamp)
    ensures var (status, body) := HandleDomainException(FromErrorCode(DefaultGroupCode(code, message)), now);
      status == INTERNAL_SERVER_ERROR && status.Value() == 500 &&
      body == ErrorResponse(code, message, Some(DEFAULT_GROUP), now)
  {
    DefaultGroupIsServerError();
  }

  /** A broken business rule reaches the client with the rule's own code and message, under the
      status of its error code's group; a code that keeps the default group gives a server error. */
  lemma BrokenRuleResponse(rule: BusinessRule, now: Timestamp)
    requires rule.broken
    ensures Validate(rule).Fail?
    ensures var (status, body) := HandleDomainException(Validate(rule).error, now);
      body.code == rule.errorCode.code && body.message == rule.message &&
      status == MapToHttpStatus(rule.errorCode.group) &&
      (rule.errorCode.group == Some(DEFAULT_GROUP) ==> status == INTERNAL_SERVER_ERROR)
  {
    DefaultGroupIsServerError();
  }
}
