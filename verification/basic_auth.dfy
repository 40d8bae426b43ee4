/**
 * The part of the HTTP Basic authentication middleware that both variants share:
 * from a non-empty `Authorization` header to the user name it carries, or to the
 * 401 response that rejects it.
 *
 * The header loses one leading "Basic " if it has one (a header without it is
 * still read as base64), is decoded with the standard base64 encoding, and is
 * split at ':'; the user name is the text before the first ':'. The password
 * after it is never looked at.
 */
module BasicAuth {
  import opened Wrappers
  import opened GoStrings
  import Base64

  const StatusUnauthorized: int := 401

  /** A response written with `http.Error`: a status code and a plain-text body. */
  datatype HttpError = HttpError(status: int, body: string)

  const DecodeFailed := HttpError(StatusUnauthorized, "Could not decode Authorization header")
  const MissingPassword := HttpError(StatusUnauthorized, "Authorization header requires a username and password")

  const BasicPrefix := "Basic "

  /** The credentials text of a header, or None when it is not valid base64. */
  function Payload(header: string): Option<string>
  {
    match Base64.DecodeString(TrimPrefix(header, BasicPrefix))
    case None => None
    case Some(data) => Some(FromBytes(data))
  }

  /**
   * The user name a non-empty header carries, or the 401 the middleware
   * writes: DecodeFailed when the payload is not base64, MissingPassword when
   * it has no ':', and otherwise the text before its first ':'.
   */
  function ParseAuthorization(header: string): (r: Result<string, HttpError>)
    ensures r == Failure(DecodeFailed) <==> Payload(header).None?
    ensures r == Failure(MissingPassword) <==> Payload(header).Some? && ':' !in Payload(header).value
    ensures r.Success? <==> Payload(header).Some? && ':' in Payload(header).value
    ensures r.Success? ==> ':' !in r.value && r.value + [':'] <= Payload(header).value
  {
    match Payload(header)
    case None => Failure(DecodeFailed)
    case Some(payload) =>
      var parts := Split(payload, ':');
      SplitHasSecondPart(payload, ':');
      SplitFirstPart(payload, ':');
      if |parts| < 2 then Failure(MissingPassword) else Success(parts[0])
  }

  /** The text `user:password` that a client base64-encodes into its header. */
  function Credentials(user: string, password: string): string
  {
    user + [':'] + password
  }

  /**
   * A header carrying base64 of `user:password` names `user`, whatever the
   * password, and whether or not it starts with "Basic ".
   */
  lemma ParseEncodedCredentials(user: string, password: string)
    requires IsByteString(user) && IsByteString(password) && ':' !in user
    ensures ParseAuthorization(BasicPrefix + Base64.Encode(ToBytes(Credentials(user, password)))) == Success(user)
    ensures ParseAuthorization(Base64.Encode(ToBytes(Credentials(user, password)))) == Success(user)
  {
    var text := Credentials(user, password);
    assert IsByteString(text) by {
      forall i | 0 <= i < |text| ensures text[i] as int < 0x100 {
        if i > |user| { assert text[i] == password[i - |user| - 1]; }
      }
    }
    var encoded := Base64.Encode(ToBytes(text));
    Base64.DecodeEncode(ToBytes(text));
    assert TrimPrefix(BasicPrefix + encoded, BasicPrefix) == encoded;
    assert !(BasicPrefix <= encoded) by {
      if |encoded| >= |BasicPrefix| {
        assert Base64.IsEncodingChar(encoded[5]);
      }
    }
    assert Payload(BasicPrefix + encoded) == Payload(encoded) == Some(text);
    assert user + [':'] <= text;
    assert ':' in text by { assert text[|user|] == ':'; }
    var name := ParseAuthorization(encoded).value;
    SplitFirstPartUnique(user, text, ':');
    SplitFirstPartUnique(name, text, ':');
  }

  /**
   * A header of "Basic " twice loses only the first: the space left in the
   * remainder is not a base64 character, so decoding fails.
   */
  lemma DoublePrefixRejected(rest: string)
    ensures ParseAuthorization(BasicPrefix + BasicPrefix + rest) == Failure(DecodeFailed)
  {
    var trimmed := BasicPrefix + rest;
    assert TrimPrefix(BasicPrefix + BasicPrefix + rest, BasicPrefix) == trimmed;
    Base64.DecodeRejectsForeignChar(trimmed, 5);
  }

  /** "Basic " alone leaves an empty payload, which has no ':'. */
  lemma BarePrefixRejected()
    ensures ParseAuthorization(BasicPrefix) == Failure(MissingPassword)
  {
    assert TrimPrefix(BasicPrefix, BasicPrefix) == "";
    assert Payload(BasicPrefix) == Some("");
  }
}
