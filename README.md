# Wallet sign-in nonce service — Dafny model

This project models the authentication server of a "sign in with a wallet" login
(`backend/server.js`). The server keeps one process-wide map from a lower-cased
wallet address to the single nonce outstanding for it. There are two handlers:

- `GET /auth/nonce?address=…` refuses a missing, empty or non-string address with
  400 "Address is Required". Otherwise it mints a nonce and stores it under the
  lower-cased address, replacing any earlier one, and returns it.
- `POST /auth/verify` runs a fixed pipeline over the body `{ address, message, signature }`:
  1. A falsy field gives 400 "Missing Fields".
  2. If no non-empty nonce is stored for the lower-cased address, or the message does
     not contain that nonce as a substring, the result is 400 "Invalid Nonce".
  3. If the signature primitive rejects the signature, the result is 401 "Invalid Signature".
  4. On success the nonce is deleted and the cookie
     `session=user:<lower-cased address>` is set (httpOnly, not secure, SameSite lax,
     path `/`). The body is `{ ok: true }`.
  5. Any exception gives 500 "server error".

Layout:

- `wrappers.dfy` (`Wrappers`): `Option`.
- `strings.dfy` (`Strings`): `Lower`, the case mapping used for keys, with the
  reference predicate `CaseVariant`. Also `Contains`, the substring test used by the
  nonce check, with the reference predicate `OccursAt`.
- `auth.dfy` (`Auth`): the JavaScript request values (`Field`), the responses
  (`Outcome`, `Status`, `ErrorText`, `OkField`) and the session cookie. It also holds
  the two handlers as pure transitions, `NonceStep` and `VerifyStep`, on the nonce map.
- `registry.dfy` (`Server`): the class `NonceRegistry` with the map as a field. Its
  handlers update the map in place, with the server's guards and early returns. Each
  method is proved equal to its pure transition. The class invariant is that every key
  is lower-case.
- `protocol.dfy` (`Protocol`): guarantees that span several requests. These are
  replacement on re-issue, one-time use, consumption only on success, frame conditions
  for other addresses, and at most one nonce per address over any run of requests
  from the empty store.

Collaborators become inputs:

- The nonce from `crypto.randomUUID()` is the `minted` argument.
- The signature primitive `verifyMessage` is the `verifier` argument. It receives the
  address as the client sent it, not lower-cased, and returns `Valid`, `Invalid` or
  `Throws`.

JavaScript's dynamic values are modelled by `Field = Missing | Str(s) | NonText(truthy)`:

- A non-string address in the verify body reaches `toLowerCase` and throws, which
  gives 500.
- A non-string message throws at `includes`, but only when a non-empty nonce is
  stored. The short-circuit `||` at `backend/server.js:63` never reaches `includes`
  otherwise.
- A stored empty nonce is falsy, so it is refused as "Invalid Nonce".

The nonce request's 400 body is `{ error: "Address is Required" }`, without an `ok` field.

## Model

| member | source | states |
|---|---|---|
| `Strings.Lower` | backend/server.js:44 | the canonical key has the address's length, contains no upper-case letter, keeps every other character, and is a case variant of the address |
| `Strings.LowerIdempotent` | backend/server.js:44 | a canonical key is its own canonical key |
| `Strings.CaseVariantIff` | backend/server.js:44 | two addresses share a canonical key if and only if they differ only in the case of letters |
| `Strings.Contains` | backend/server.js:63 | `message.includes(nonce)` holds exactly when the nonce occurs at some index of the message (always for the empty nonce) |
| `Auth.Status` | backend/server.js:42-98 | the status is 200 exactly for an issued nonce and a login, 401 exactly for a rejected signature, 500 exactly for a caught exception, 400 otherwise |
| `Auth.ErrorText` | backend/server.js:42-98 | the body carries a non-empty `error` string exactly when the status is not 200 |
| `Auth.OkField` | backend/server.js:42-98 | the nonce handler's bodies have no `ok` field; `ok: true` only on login; `ok: false` on every failed verify |
| `Auth.Lookup` | backend/server.js:61-62 | with canonical keys, a nonce is found exactly when a stored key is a case variant of the address, and it is that key's nonce |
| `Auth.OneEntryPerAddress` | backend/server.js:11 | with lower-case keys, the only entry for an address is under its canonical key |
| `Auth.SessionValue` | backend/server.js:81 | the session value is `user:` followed by the lower-case form of the address, a case variant of it |
| `Auth.SessionCookie` | backend/server.js:83-88 | the cookie is named `session`, holds the session value, and is http-only, not secure, SameSite lax, path `/` |
| `Auth.NonceStep` | backend/server.js:38-48 | a nonce is issued iff the address is a non-empty string; then the returned nonce is the one stored under `Lower(address)`, the key set grows by that key only, every other entry is unchanged; otherwise 400 and the map is unchanged |
| `Auth.VerifyStep` | backend/server.js:51-100 | login succeeds iff all fields are present, the stored nonce is non-empty and occurs in the message, and the primitive accepts the original address; success deletes exactly `Lower(address)` and sets the `session` cookie; every failure leaves the map unchanged; "Missing Fields", "Invalid Nonce" and "Invalid Signature" each hold exactly under their conditions |
| `Server.NonceRegistry.constructor` | backend/server.js:11 | the store starts empty |
| `Server.NonceRegistry.RequestNonce` | backend/server.js:38-48 | updates the map in place as `NonceStep` says, keeps all keys canonical, and a lookup right after yields the returned nonce |
| `Server.NonceRegistry.NonceFor` | backend/server.js:61-62 | the lookup agrees with `Lookup`; the class invariant makes the only stored entry for any case variant of the address the one returned |
| `Server.NonceRegistry.VerifyLogin` | backend/server.js:51-100 | guards, lookup, delete and cookie as `VerifyStep` says; the map changes iff the login succeeds |
| `Protocol.ReissueReplaces` | backend/server.js:44-46 | a second nonce request for the same address or a case variant leaves only the second nonce |
| `Protocol.StaleNonceRejected` | backend/server.js:46-65 | after re-issue, a message lacking the new nonce is "Invalid Nonce" whatever its signature |
| `Protocol.OneTimeUse` | backend/server.js:62-79 | repeating a successful login is "Invalid Nonce" |
| `Protocol.ConsumedOnlyOnSuccess` | backend/server.js:56-79 | a verify request changes the map iff it succeeds |
| `Protocol.OthersUndisturbed` | backend/server.js:44-79 | no request changes the nonce of an address that is not a case variant of its own |
| `Protocol.CaseVariantsShareKey` | backend/server.js:44-46 | a nonce requested under one spelling is the nonce of every case variant, and of nothing else |
| `Protocol.HandleKeepsCanonical` | backend/server.js:44-79 | every request keeps all keys lower-case |
| `Protocol.RunKeepsCanonical` | backend/server.js:11-79 | any sequence of requests keeps all keys lower-case |
| `Protocol.AtMostOneNonce` | backend/server.js:11-79 | from the empty store, whatever requests arrive, no address ever has two outstanding nonces |
| `Protocol.SessionIdentifiesAccount` | backend/server.js:81 | two addresses get the same session value iff they are case variants |
| `Protocol.SignInFlow` | backend/server.js:38-95 | request, sign, login sets `session=user:<lower-case address>` and consumes the nonce; a replay is "Invalid Nonce" and changes nothing |

## Left out

- HTTP plumbing: Express, `cors` with its origin allow-list, `cookie-parser`, JSON
  body parsing, request logging, every `console` call and `app.listen`
  (backend/server.js:1-31, 115-118). The model assumes the Express 4 body parser,
  which gives a request without a JSON body an empty object, so all fields are
  missing. Under Express 5 the body stays undefined, the destructuring at
  backend/server.js:53 throws, and the answer would be 500.
- The root route and the 404 fallback (backend/server.js:34-36, 103-113). They are
  fixed JSON answers that touch no state.
- The internals of `verifyMessage` (personal-message signature recovery). It is the
  `verifier` oracle.
- `crypto.randomUUID()`. The nonce is an argument, and uniqueness and unguessability
  are not modelled.
- Concurrency. Each request is one atomic step. The window that the `await` at
  backend/server.js:68 opens between lookup and delete is not modelled, and neither
  is the double-login race it allows.
- `Strings.Lower` maps only the ASCII letters A-Z. Unicode case mappings of
  `toLowerCase`, including those that change a string's length, are not modelled.
- `Auth.VerifyStep`: a JSON array sent as `message` is treated like other non-string
  values (500). In the server, `Array.prototype.includes` tests element membership
  there and the request goes on to the signature primitive.
- The serialised forms of the responses and of the `Set-Cookie` header. Responses
  are the `Outcome` values with their status, `error` text and `ok` field.
