/**
 * The Negroni variant: an `Authentication` middleware that takes the request's
 * user from the `Authorization` header, falls back to the "user" value of the
 * request's session when there is no header, and to the anonymous user "guest"
 * when the session has none either. A user established by the header is also
 * written into the session, so later requests that carry only the session
 * cookie keep it.
 *
 * `Resolve` is the decision as a value; `Request.ServeHTTP` carries it out on
 * the request's state: the session's values, the user slot of the request
 * context, the response, and the calls of the next handler.
 */
module Negroni {
  import opened Wrappers
  import opened GoStrings
  import opened BasicAuth
  import Base64

  /** The values of a request's session, `session.Values`. */
  type Session = map<string, string>

  /** The session key under which the logged-in user name is kept. */
  const UserKey := "user"

  /** The user found for a request. */
  datatype User = User(name: string)

  /** The user of a request that has neither credentials nor a session user. */
  const AnonUser := User("guest")

  /** Resolution either hands the request on, with its user and session, or stops it with a 401. */
  datatype Outcome = Next(user: User, session: Session) | Halt(error: HttpError)

  /** The two sessions agree on every key other than "user". */
  ghost predicate OnlyUserChanged(before: Session, after: Session) {
    forall k :: k != UserKey ==> (k in before <==> k in after) && (k in before ==> before[k] == after[k])
  }

  /**
   * The middleware's decision for a request whose `Authorization` header is
   * `header` ("" when there is none) and whose session holds `session`.
   */
  function Resolve(header: string, session: Session): (o: Outcome)
    ensures o.Halt? <==> header != "" && ParseAuthorization(header).Failure?
    ensures o.Halt? ==> o.error.status == StatusUnauthorized && ParseAuthorization(header) == Failure(o.error)
    ensures o.Next? && header != "" ==> o.user.name == ParseAuthorization(header).value
    ensures o.Next? ==> OnlyUserChanged(session, o.session)
    ensures o.Next? && header == "" ==> o.session == session
    ensures o.Next? && header != "" ==> UserKey in o.session
    ensures o.Next? && UserKey in o.session ==> o.user.name == o.session[UserKey]
    ensures o.Next? && UserKey !in o.session ==> o.user == AnonUser
  {
    if header == "" then
      if UserKey !in session then Next(AnonUser, session)
      else Next(User(session[UserKey]), session)
    else
      match ParseAuthorization(header)
      case Failure(error) => Halt(error)
      case Success(name) => Next(User(name), session[UserKey := name])
  }

  /** No header and no session user: the anonymous user, and the session is left alone. */
  lemma NoCredentialsIsGuest(session: Session)
    requires UserKey !in session
    ensures Resolve("", session) == Next(AnonUser, session)
  {
  }

  /** No header: the session's user, and the session is left alone. */
  lemma SessionUserKept(session: Session)
    requires UserKey in session
    ensures Resolve("", session) == Next(User(session[UserKey]), session)
  {
  }

  /** A valid header wins over the session and overwrites its user. */
  lemma HeaderTakesPrecedence(header: string, session: Session, name: string)
    requires header != "" && ParseAuthorization(header) == Success(name)
    ensures Resolve(header, session) == Next(User(name), session[UserKey := name])
  {
  }

  /** `Basic base64(user:password)` logs `user` in, replacing any user the session had. */
  lemma CredentialsLogIn(user: string, password: string, session: Session)
    requires IsByteString(user) && IsByteString(password) && ':' !in user
    ensures Resolve(BasicPrefix + Base64.Encode(ToBytes(Credentials(user, password))), session)
            == Next(User(user), session[UserKey := user])
  {
    ParseEncodedCredentials(user, password);
  }

  /** A header that does not decode, or decodes without a ':', stops the request with the matching 401. */
  lemma MalformedHeaderHalts(header: string, session: Session)
    requires header != ""
    ensures Payload(header).None? ==> Resolve(header, session) == Halt(DecodeFailed)
    ensures Payload(header).Some? && ':' !in Payload(header).value ==>
              Resolve(header, session) == Halt(MissingPassword)
  {
  }

  /**
   * Resolving again with the same header, against the session the first
   * resolution left, changes nothing: the session write is a set, not an append.
   */
  lemma ResolveIdempotent(header: string, session: Session)
    ensures Resolve(header, session).Next? ==>
              Resolve(header, Resolve(header, session).session) == Resolve(header, session)
  {
    var o := Resolve(header, session);
    if o.Next? && header != "" {
      assert o.session[UserKey := o.user.name] == o.session;
    }
  }

  /**
   * Login is sticky: a later request with no header, carrying the session this
   * one left, resolves to the same user and leaves that session alone.
   */
  lemma LoginIsSticky(header: string, session: Session)
    ensures Resolve(header, session).Next? ==>
              Resolve("", Resolve(header, session).session) == Resolve(header, session)
  {
  }

  /** The state of one request as the middleware sees and changes it. */
  class Request {
    /** `r.Header.Get("Authorization")`: "" when the header is absent. */
    const authorization: string
    /** The values of the request's session, updated in place. */
    var sessionValues: Session
    /** The user stored in the request context under the user key, if any. */
    var contextUser: Option<User>
    /** The error response written to the client, if any. */
    var response: Option<HttpError>
    /** How many times the next handler has been called. */
    var nextCalls: nat

    /** A user is in the context exactly when a later handler has been reached. */
    ghost predicate Valid()
      reads this
    {
      contextUser.Some? <==> nextCalls > 0
    }

    /** A request as the session middleware hands it on: nothing resolved, nothing written. */
    constructor (authorization: string, sessionValues: Session)
      ensures Valid()
      ensures this.authorization == authorization && this.sessionValues == sessionValues
      ensures contextUser == None && response == None && nextCalls == 0
    {
      this.authorization := authorization;
      this.sessionValues := sessionValues;
      contextUser := None;
      response := None;
      nextCalls := 0;
    }

    /**
     * `GetUser`: the user the middleware stored for this request, or None
     * (Go's nil) when none was stored, which on a valid request means no later
     * handler has been reached.
     */
    function GetUser(): (u: Option<User>)
      reads this
      ensures Valid() ==> (u.None? <==> nextCalls == 0)
    {
      contextUser
    }

    /**
     * The middleware's `ServeHTTP`. On success the context holds the resolved
     * user, the session holds what `Resolve` gives and the next handler is
     * called once; on a 401 the response is written and nothing else changes.
     */
    method ServeHTTP()
      requires Valid()
      modifies this
      ensures Valid()
      ensures match Resolve(authorization, old(sessionValues))
        case Next(user, session) =>
          && GetUser() == Some(user) && sessionValues == session
          && nextCalls == old(nextCalls) + 1 && response == old(response)
        case Halt(error) =>
          && response == Some(error) && sessionValues == old(sessionValues)
          && contextUser == old(contextUser) && nextCalls == old(nextCalls)
    {
      if authorization == "" {
        if UserKey !in sessionValues {
          contextUser := Some(AnonUser);
        } else {
          contextUser := Some(User(sessionValues[UserKey]));
        }
        nextCalls := nextCalls + 1;
        return;
      }

      var parsed := ParseAuthorization(authorization);
      if parsed.Failure? {
        response := Some(parsed.error);
        return;
      }

      contextUser := Some(User(parsed.value));
      sessionValues := sessionValues[UserKey := parsed.value];
      nextCalls := nextCalls + 1;
    }
  }
}
