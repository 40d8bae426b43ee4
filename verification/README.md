# Request identity resolution and the admin gate, in Dafny

This project models the HTTP Basic authentication middleware of the GoHttp
examples. It also models the authorization check built on top of it. The
repository has two alternative versions of the middleware:

- **Martini** (`main.go`). `Authentication` maps the request's user from the
  `Authorization` header alone. With no header the user is `"guest"`. A header
  that cannot be used gets a 401. `Authorization(access)` then lets only
  `"admin"` through and ignores the access label.
- **Negroni** (`authentication.go`). `(*Authentication).ServeHTTP` does the same
  header decoding. With no header it falls back to the session's `"user"` value,
  and then to `AnonUser` (`"guest"`). A user established from the header is
  written into the session. `GetUser` reads back the user stored for the request.

Both versions share the header pipeline. It removes one leading `"Basic "`. A
header without that prefix is still decoded as raw base64. It then decodes the
rest with Go's standard base64 encoding and splits the payload at `':'`. The user
name is the text before the first `':'`. The password is never examined.

Modules:

- `Wrappers`: `Option` and `Result`.
- `GoStrings`: Go's `byte`; the conversions between strings and bytes;
  `strings.TrimPrefix`; and `strings.Split` with its inverse `Join`.
- `Base64`: `StdEncoding` as defined in section 4 of RFC 4648. It has an encoder
  and a decoder that behaves like Go's. The decoder skips `'\r'` and `'\n'` anywhere
  and requires padding. It accepts padding only at the end. It ignores the unused
  low bits of a padded quantum.
- `BasicAuth`: the shared pipeline, `ParseAuthorization`. It gives a user name or
  the 401 to write.
- `Martini`: the `main.go` middleware and gate. These are pure functions over
  an `Effects` record. The record holds the user mapped for injection and the
  response written. `GuardedRoute` models Martini's rule that no handler runs
  after a response has been written.
- `Negroni`: the `authentication.go` middleware. `Resolve` gives the decision
  as a value. The class `Request` holds the state that `ServeHTTP` changes in
  place: the session values, the context's user slot, the response and the
  number of calls to `next`.

A Go string is a sequence of bytes. Here it is a `string` in which every
character stands for one byte. `IsByteString` says so where it matters.

## Model

| member | source | states |
|---|---|---|
| `GoStrings.FromBytes` | main.go:65 | `string(data)` keeps length and every byte, and gives a byte string |
| `GoStrings.TrimPrefix` | main.go:53 | With the prefix present, prefix + result is the input (one copy removed). Without it, the input is returned unchanged |
| `GoStrings.Split` | main.go:65 | There is always at least one part. No part contains the separator. Joining the parts with the separator gives the input back |
| `GoStrings.SplitHasSecondPart` | main.go:65-66 | `len(s) < 2` holds exactly when the payload has no `':'` |
| `GoStrings.SplitFirstPart` | main.go:65-75 | `s[0]` has no `':'`. It is followed by `':'` in the payload when one exists, and is the whole payload otherwise |
| `GoStrings.SplitFirstPartUnique` | main.go:75 | Any colon-free text that the payload continues with `':'` is `s[0]`: the user name is exactly the text before the first `':'`, possibly empty |
| `GoStrings.SplitJoin` | main.go:65 | Split inverts Join on separator-free parts, so Split is the only such decomposition |
| `Base64.DecodeSextet` | main.go:56 | An alphabet character decodes to the digit that encodes it. Every other character has no value |
| `Base64.DecodeEncodeSextet` | main.go:56 | Every digit is read back from its own character |
| `Base64.Classify` | main.go:56 | The decoder's lookup of one character. It gives padding exactly for `'='`, and no value exactly for a character outside the alphabet and `'='`. A digit is the value its character encodes |
| `Base64.Render` | main.go:56 | Written digits and padding are whole alphabet characters, and classifying the text gives back exactly the symbols written |
| `Base64.EncodeSymbols` | main.go:56 | The encoding of some bytes is a whole number of quanta with no invalid symbol. It is empty only for no bytes |
| `Base64.QuantumBytes` | main.go:56 | The three bytes carry the same 24 bits as the four digits |
| `Base64.Encode` | main.go:56 | Encoded text is whole quanta of alphabet characters and `'='`. It is empty only for no bytes |
| `Base64.StripNewlines` | main.go:56 | The text the decoder reads has no line breaks. Text without line breaks is kept as it is. A single character is dropped exactly when it is `'\r'` or `'\n'` |
| `Base64.StripNewlinesConcat` | main.go:56 | Line breaks are removed from each part of a text separately. With the one-character case this fixes the result: every line break is removed and every other character is kept in order |
| `Base64.DecodeQuantum` | main.go:56 | Four digits always decode. In the last quantum, two digits and `"=="` or three digits and `'='` also decode, whatever the unused bits hold. Padding in any other quantum fails, and so does a digit after padding. A quantum with an invalid character fails. A successful quantum starts with two digits. It gives 3 bytes when the fourth is a digit and 1 byte when the third is padding. The bytes are the leading bytes of the 24 bits its digits carry, with padding counted as zero |
| `Base64.DecodeQuanta` | main.go:56 | Successful decoding needs a whole number of quanta and yields 3 bytes per quantum, less at most 2 for padding |
| `Base64.DecodeString` | main.go:56 | Decoding fails unless the text without line breaks is a whole number of quanta |
| `Base64.UnusedBitsIgnored` | main.go:56 | The decoder is not strict: `"QR=="`, whose padding leaves a set bit unused, decodes to the same byte `0x41` as `"QQ=="` |
| `Base64.DecodeEncode` | main.go:56 | Decoding undoes encoding for every byte sequence |
| `Base64.DecodeIgnoresLineBreak` | main.go:56 | A lone `'\r'` or `'\n'` anywhere does not change the decoded result, so neither does any number of them |
| `Base64.DecodeRejectsForeignChar` | main.go:56-62 | Any character that is not a digit, `'='` or a line break makes decoding fail |
| `BasicAuth.ParseAuthorization` | main.go:52-71 | "Could not decode" happens exactly when base64 fails. "Requires a username and password" happens exactly when the payload has no `':'`. Otherwise the result is the colon-free text that precedes the first `':'` |
| `BasicAuth.ParseEncodedCredentials` | main.go:52-75 | `base64(user:password)`, with or without `"Basic "`, yields `user` for every password |
| `BasicAuth.DoublePrefixRejected` | main.go:53-62 | Only one `"Basic "` is removed. A second one makes decoding fail |
| `BasicAuth.BarePrefixRejected` | main.go:53-71 | `"Basic "` alone decodes to an empty payload and is rejected for the missing `':'` |
| `Martini.Authentication` | main.go:43-76 | Each call either maps a user or writes a 401, never both and never neither. An empty header maps `"guest"` and writes nothing. The two malformed cases write their messages and map nothing. A non-empty header maps a user exactly when its payload decodes and holds a `':'`. A mapped user is the text before the first `':'` |
| `Martini.MappedUserIsTextBeforeColon` | main.go:52-75 | Any non-empty header whose payload holds a `':'` maps exactly the colon-free text before the first one and writes nothing. This holds with line breaks, unused padding bits or no prefix in the header |
| `Martini.Authorization` | main.go:82-91 | Nothing is written exactly for `"admin"`. Every other user gets 401 `"Not Authorized"` |
| `Martini.GuardedRoute` | main.go:84-89 | A guarded handler runs exactly when authentication mapped `"admin"`. Every other request ends in a 401: the one `Authentication` wrote when it wrote one, since no handler runs after that, and otherwise `"Not Authorized"` |
| `Martini.PrefixStrippedOnce` | main.go:52-53 | A header with or without the `"Basic "` prefix gives the same outcome, because a header without it is not rejected |
| `Martini.BarePrefixIsNotGuest` | main.go:45-71 | The header value `"Basic "`, as `Header.Get` returns it, is present, so it is not a guest. It gets the missing-password 401 |
| `Martini.TrimmedBarePrefixIsRejected` | main.go:52-62 | The header value `"Basic"` does not carry the prefix. Read as raw base64 it is not whole quanta, so it gets the decode 401 |
| `Martini.DoublePrefixIsRejected` | main.go:53-62 | `"Basic Basic ..."` gets the decode 401 |
| `Martini.CredentialsMapUser` | main.go:73-75 | `Basic base64(user:password)` maps `user` and writes nothing |
| `Martini.AccessLabelIgnored` | main.go:82-90 | The gate's decision does not depend on the access label |
| `Martini.GuestIsNotAuthorized` | main.go:46-89 | A request without a header is a guest and is refused by the gate |
| `Martini.AdminCredentialsAuthorized` | main.go:75-89 | Credentials for `"admin"` with any password reach the guarded handler |
| `Negroni.Resolve` | authentication.go:44-92 | It halts exactly on a non-empty header that fails to parse, always with that header's 401. It changes no session key but `"user"`. It leaves the session alone without a header. With a header, it stores `"user"` and the user is the header's name. The resolved user is the session's user, or `AnonUser` when the session has none |
| `Negroni.NoCredentialsIsGuest` | authentication.go:49-59 | No header and no session user gives `AnonUser`, an unchanged session and a call to `next` |
| `Negroni.SessionUserKept` | authentication.go:51-59 | No header and a session user `u` gives user `u` and an unchanged session |
| `Negroni.HeaderTakesPrecedence` | authentication.go:84-91 | A valid header gives its user name and writes it to `"user"`, overwriting any previous session user |
| `Negroni.CredentialsLogIn` | authentication.go:63-91 | `Basic base64(user:password)` logs `user` in whatever the session held |
| `Negroni.MalformedHeaderHalts` | authentication.go:66-82 | An undecodable header or a payload without `':'` halts with the matching 401 |
| `Negroni.ResolveIdempotent` | authentication.go:86-89 | After a resolution that does not halt, resolving again with the same header against the resulting session gives the same user and session |
| `Negroni.LoginIsSticky` | authentication.go:49-89 | After a resolution that does not halt, a later request with no header, against the resulting session, resolves to the same user and leaves that session unchanged |
| `Negroni.Request.constructor` | authentication.go:45-48 | A request starts with its header and session, no stored user, no response and no call to `next` |
| `Negroni.Request.GetUser` | authentication.go:35-40 | Returns nil (None) exactly when no user has been stored, which is before any later handler runs |
| `Negroni.Request.ServeHTTP` | authentication.go:44-92 | On success: the stored user and session are those of `Resolve`, `next` runs once more, and no response is written. On a 401: the response is written and the session, the stored user and `next` are untouched |

## Left out

- `main()` (main.go:16-37) is not modelled: route registration, `martini.Classic()`, `m.Run()` and the greeting handlers are server glue. `GuardedRoute` stands for the `/secret` chain.
- Martini's dependency injection (`c.MapTo`) is the `mapped` field of `Effects`. The gorilla/context request map is the `contextUser` field of `Request`.
- sessions.go is not part of this model. Loading and saving the cookie session and clearing the context are library code. The session is only its `Values` map, passed in and updated. `GetSession` returning nil when no session middleware ran is not modelled, so the model assumes the session exists.
- Session invalidation (logout) does not occur in the modelled code, so it is not modelled.
- `NewAuthentication` (authentication.go:30-32) builds an empty, stateless struct and is not modelled.
- `User.String` (authentication.go:24-26) only formats the name for the greeting handlers and is not modelled.
- `Header.Get` is taken as given. Not modelled: header-name canonicalisation, the choice among repeated headers, and the HTTP/1 parser's trimming of whitespace around a header value. The model's `header` is the value as `Header.Get` returns it. As in the code, an empty header value counts as no header.
- `http.Error` is reduced to the (status, body) pair. Content-type headers are not modelled, nor is Martini's or Negroni's check of whether a response was written.
- A session value that is not a string would make `u.(string)` (authentication.go:57) panic. This cannot happen here, because the session is `map<string, string>`.
- `Base64.Encode` writes whole quanta and does not model `EncodeToString`'s buffer handling. It exists as the inverse of the decoder. The decoder does not report the error offset that Go's `CorruptInputError` carries. On an error it does not return the partial bytes either, since the middleware discards both.
- `GoStrings.Split` takes a one-character separator, which is the only kind the code uses. Go's general multi-byte separator is not modelled.
- There is no real credential check and no policy engine: the code accepts any password and compares the user with `"admin"` only. The model keeps exactly that.

## Notes on behaviour

- The code treats an empty `Authorization` value and a missing header the same way, because both read as `""`. The model follows the code. A header value of exactly `"Basic "`, as `Header.Get` returns it, is therefore not a guest: it is rejected for the missing `':'`. Sent over HTTP/1, that value arrives trimmed to `"Basic"`, which gets the decode 401 instead.
- A header without the `"Basic "` prefix is decoded as raw base64 instead of being rejected (`Martini.PrefixStrippedOnce`). This permissive behaviour is kept as written.
- The user name may be empty: the payload `":pw"` resolves to the user `""`. In the Negroni variant, that empty name is then stored in the session.
