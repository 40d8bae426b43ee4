/**
 * The Martini variant: an `Authentication` middleware that maps the request's
 * user from the `Authorization` header alone (an absent header means "guest"),
 * and an `Authorization(access)` handler that lets only "admin" through.
 *
 * Martini injects the mapped user into later handlers and stops calling
 * handlers once one has written a response; both are explicit values here.
 */
module Martini {
  import opened Wrappers
  import opened GoStrings
  import opened BasicAuth
  import Base64

  const Guest := "guest"
  const Admin := "admin"
  const NotAuthorized := HttpError(StatusUnauthorized, "Not Authorized")

  /**
   * What a handler leaves behind: the user it mapped for injection, if any,
   * and the response it wrote, if any.
   */
  datatype Effects = Effects(mapped: Option<string>, written: Option<HttpError>)

  /**
   * The `Authentication` middleware for a request whose `Authorization` header
   * is `header` ("" when there is none). It either maps a user or writes a 401,
   * never both and never neither.
   */
  function Authentication(header: string): (e: Effects)
    ensures e.mapped.Some? != e.written.Some?
    ensures header == "" ==> e == Effects(Some(Guest), None)
    ensures header != "" && Payload(header).None? ==> e == Effects(None, Some(DecodeFailed))
    ensures header != "" && Payload(header).Some? && ':' !in Payload(header).value ==>
              e == Effects(None, Some(MissingPassword))
    ensures header != "" ==> (e.mapped.Some? <==> Payload(header).Some? && ':' in Payload(header).value)
    ensures header != "" && e.mapped.Some? ==>
              Payload(header).Some? && ':' !in e.mapped.value && e.mapped.value + [':'] <= Payload(header).value
  {
    if header == "" then
      Effects(Some(Guest), None)
    else
      match ParseAuthorization(header)
      case Success(user) => Effects(Some(user), None)
      case Failure(error) => Effects(None, Some(error))
  }

  /**
   * The handler that `Authorization(access)` returns, applied to the mapped
   * user: nothing is written for "admin", and 401 "Not Authorized" for anyone
   * else. The `access` label plays no part.
   */
  function Authorization(access: string, user: string): (written: Option<HttpError>)
    ensures written == None <==> user == Admin
    ensures written != None ==> written == Some(NotAuthorized)
  {
    if user != Admin then Some(NotAuthorized) else None
  }

  /**
   * A route behind `Authentication` and `Authorization(access)`: the route's
   * handler receives the mapped user, or the first response written stops
   * the chain before it.
   */
  function GuardedRoute(header: string, access: string): (r: Result<string, HttpError>)
    ensures r.Success? <==> Authentication(header).mapped == Some(Admin)
    ensures r.Success? ==> r.value == Admin
    ensures r.Failure? ==> r.error.status == StatusUnauthorized
    ensures r.Failure? ==>
              r.error == (if Authentication(header).written.Some? then Authentication(header).written.value else NotAuthorized)
  {
    var auth := Authentication(header);
    if auth.written.Some? then Failure(auth.written.value)
    else
      match Authorization(access, auth.mapped.value)
      case Some(error) => Failure(error)
      case None => Success(auth.mapped.value)
  }

  /** Exactly one leading "Basic " is removed: with or without it, the same base64 text gives the same outcome. */
  lemma PrefixStrippedOnce(rest: string)
    requires rest != "" && !(BasicPrefix <= rest)
    ensures Authentication(BasicPrefix + rest) == Authentication(rest)
  {
    assert TrimPrefix(BasicPrefix + rest, BasicPrefix) == rest;
  }

  /** A header of "Basic " alone is present, so it is not a guest: it has no ':' once decoded. */
  lemma BarePrefixIsNotGuest()
    ensures Authentication(BasicPrefix) == Effects(None, Some(MissingPassword))
  {
    BarePrefixRejected();
  }

  /** "Basic" without its space is not the prefix; read as base64 it is not whole quanta, so it is undecodable. */
  lemma TrimmedBarePrefixIsRejected()
    ensures Authentication("Basic") == Effects(None, Some(DecodeFailed))
  {
    assert !(BasicPrefix <= "Basic");
    assert TrimPrefix("Basic", BasicPrefix) == "Basic";
    assert Base64.StripNewlines("Basic") == "Basic";
    assert Payload("Basic") == None;
  }

  /** "Basic Basic ..." is rejected as undecodable rather than stripped twice. */
  lemma DoublePrefixIsRejected(rest: string)
    ensures Authentication(BasicPrefix + BasicPrefix + rest) == Effects(None, Some(DecodeFailed))
  {
    DoublePrefixRejected(rest);
  }

  /** `Basic base64(user:password)` maps `user`; the password is never inspected. */
  lemma CredentialsMapUser(user: string, password: string)
    requires IsByteString(user) && IsByteString(password) && ':' !in user
    ensures Authentication(BasicPrefix + Base64.Encode(ToBytes(Credentials(user, password))))
            == Effects(Some(user), None)
  {
    ParseEncodedCredentials(user, password);
  }

  /**
   * Any non-empty header whose payload decodes and holds a ':' maps exactly the
   * text before the first ':', whatever else the header holds (line breaks,
   * unused padding bits, no "Basic " prefix).
   */
  lemma MappedUserIsTextBeforeColon(header: string, user: string)
    ensures header != "" && Payload(header).Some? && ':' !in user && user + [':'] <= Payload(header).value ==>
              Authentication(header) == Effects(Some(user), None)
  {
    if header != "" && Payload(header).Some? && ':' !in user && user + [':'] <= Payload(header).value {
      var payload := Payload(header).value;
      assert ':' in payload by { assert payload[|user|] == ':'; }
      var mapped := Authentication(header).mapped.value;
      SplitFirstPartUnique(user, payload, ':');
      SplitFirstPartUnique(mapped, payload, ':');
    }
  }

  /** The gate decides the same way whatever access label it was created with. */
  lemma AccessLabelIgnored(access1: string, access2: string, user: string)
    ensures Authorization(access1, user) == Authorization(access2, user)
  {
  }

  /** A request without credentials is a guest and never reaches a guarded route. */
  lemma GuestIsNotAuthorized(access: string)
    ensures GuardedRoute("", access) == Failure(NotAuthorized)
  {
  }

  /** Credentials naming "admin", with any password, reach a guarded route. */
  lemma AdminCredentialsAuthorized(password: string, access: string)
    requires IsByteString(password)
    ensures GuardedRoute(BasicPrefix + Base64.Encode(ToBytes(Credentials(Admin, password))), access)
            == Success(Admin)
  {
    CredentialsMapUser(Admin, password);
  }
}
