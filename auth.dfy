/**
 * The wallet sign-in protocol of the authentication server, as pure state
 * transitions over the nonce map (canonical address -> outstanding nonce).
 *
 * `NonceStep` is the `GET /auth/nonce` handler and `VerifyStep` the
 * `POST /auth/verify` handler; each takes the map before the request and
 * returns the response together with the map after it. The class in
 * registry.dfy runs the same handlers imperatively and is proved to agree
 * with these functions; the lemmas below state the protocol's guarantees.
 */
module Auth {
  import opened Wrappers
  import opened Strings

  /**
   * A request parameter as JavaScript sees it: absent, a string, or a value
   * of another type (a number, boolean, null, object, or a repeated query
   * parameter), of which only its truthiness matters.
   */
  datatype Field = Missing | Str(s: string) | NonText(truthy: bool)

  /** JavaScript truthiness: `undefined`, `""` and the falsy non-strings are false. */
  predicate Truthy(f: Field)
  {
    match f
    case Missing => false
    case Str(s) => s != []
    case NonText(t) => t
  }

  /** What the signature primitive `verifyMessage` does: accept, reject, or throw. */
  datatype SigOutcome = Valid | Invalid | Throws

  /** The primitive, given the address as the client sent it, the message and the signature. */
  type Verifier = (string, string, Field) -> SigOutcome

  datatype Cookie = Cookie(name: string, value: string, httpOnly: bool, secure: bool,
                           sameSite: string, path: string)

  /** What a handler sends back. */
  datatype Outcome =
    | NonceIssued(nonce: string)      // 200 { nonce }
    | AddressRequired                 // 400 { error: "Address is Required" }
    | MissingFields                   // 400 { ok: false, error: "Missing Fields" }
    | InvalidNonce                    // 400 { ok: false, error: "Invalid Nonce" }
    | InvalidSignature                // 401 { ok: false, error: "Invalid Signature" }
    | ServerError                     // 500 { ok: false, error: "server error" }
    | LoggedIn(session: Cookie)       // 200 { ok: true } and Set-Cookie

  /** The HTTP status: 200 exactly for an issued nonce and a login. */
  function Status(o: Outcome): (code: int)
    ensures code in {200, 400, 401, 500}
    ensures code == 200 <==> o.NonceIssued? || o.LoggedIn?
    ensures code == 401 <==> o == InvalidSignature
    ensures code == 500 <==> o == ServerError
  {
    match o
    case NonceIssued(_) => 200
    case AddressRequired => 400
    case MissingFields => 400
    case InvalidNonce => 400
    case InvalidSignature => 401
    case ServerError => 500
    case LoggedIn(_) => 200
  }

  /** The `error` string of the JSON body: present exactly on the failures. */
  function ErrorText(o: Outcome): (e: Option<string>)
    ensures e.None? <==> Status(o) == 200
    ensures e.Some? ==> e.value != []
  {
    match o
    case NonceIssued(_) => None
    case AddressRequired => Some("Address is Required")
    case MissingFields => Some("Missing Fields")
    case InvalidNonce => Some("Invalid Nonce")
    case InvalidSignature => Some("Invalid Signature")
    case ServerError => Some("server error")
    case LoggedIn(_) => None
  }

  /**
   * The `ok` field of the JSON body: absent from the nonce handler's answers,
   * true only on login, false on every failed login attempt.
   */
  function OkField(o: Outcome): (ok: Option<bool>)
    ensures ok.None? <==> o.NonceIssued? || o.AddressRequired?
    ensures ok == Some(true) <==> o.LoggedIn?
    ensures ok == Some(false) <==> ErrorText(o).Some? && !o.AddressRequired?
  {
    match o
    case NonceIssued(_) => None
    case AddressRequired => None
    case LoggedIn(_) => Some(true)
    case _ => Some(false)
  }

  type NonceMap = map<string, string>

  /** One handled request: the response and the nonce map afterwards. */
  datatype Step = Step(out: Outcome, after: NonceMap)

  /** Every key is a canonical (lower-case) address. */
  ghost predicate Canonical(m: NonceMap)
  {
    forall k :: k in m ==> Lower(k) == k
  }

  /** In a map with canonical keys, the only entry for an address is the one under its canonical key. */
  lemma OneEntryPerAddress(m: NonceMap, a: string)
    requires Canonical(m)
    ensures forall k :: k in m && CaseVariant(k, a) ==> k == Lower(a)
  {
  }

  /**
   * The nonce outstanding for an address, looked up under its canonical key.
   * When all keys are canonical, it is found exactly when some stored key is a
   * case variant of the address, and it is that key's nonce.
   */
  function Lookup(m: NonceMap, address: string): (r: Option<string>)
    ensures Canonical(m) ==> (r.Some? <==> exists k :: k in m && CaseVariant(k, address))
    ensures Canonical(m) ==> forall k :: k in m && CaseVariant(k, address) ==> r == Some(m[k])
  {
    assert Canonical(m) ==> forall k :: k in m && CaseVariant(k, address) ==> k == Lower(address) by {
      if Canonical(m) {
        OneEntryPerAddress(m, address);
      }
    }
    if Lower(address) in m then Some(m[Lower(address)]) else None
  }

  /**
   * The session credential for an address: "user:" followed by the
   * lower-case form of the address.
   */
  function SessionValue(address: string): (v: string)
    ensures |v| == |address| + 5 && v[..5] == "user:"
    ensures Lower(v[5..]) == v[5..] && CaseVariant(v[5..], address)
  {
    LowerIdempotent(address);
    "user:" + Lower(address)
  }

  /**
   * The `session` cookie set on a successful login: http-only, not secure,
   * SameSite lax, scoped to the whole site, holding the session value.
   */
  function SessionCookie(address: string): (c: Cookie)
    ensures c.name == "session" && c.value == SessionValue(address)
    ensures c.httpOnly && !c.secure && c.sameSite == "lax" && c.path == "/"
  {
    Cookie("session", SessionValue(address), true, false, "lax", "/")
  }

  /** `GET /auth/nonce?address=...` with `minted` as the generated nonce. */
  function NonceStep(m: NonceMap, address: Field, minted: string): (st: Step)
    ensures st.out.NonceIssued? <==> address.Str? && address.s != []
    ensures !st.out.NonceIssued? ==> st == Step(AddressRequired, m)
    ensures st.out.NonceIssued? ==>
      && st.out.nonce == minted
      && Lookup(st.after, address.s) == Some(minted)
      && st.after.Keys == m.Keys + {Lower(address.s)}
      && forall k :: k in m && k != Lower(address.s) ==> k in st.after && st.after[k] == m[k]
  {
    match address
    case Str(s) =>
      if s == [] then Step(AddressRequired, m)
      else
        LowerIdempotent(s);
        Step(NonceIssued(minted), m[Lower(s) := minted])
    case _ => Step(AddressRequired, m)
  }

  /**
   * The nonce check passes: a non-empty nonce is outstanding for the address
   * and the message contains it somewhere.
   */
  ghost predicate NonceMatches(m: NonceMap, address: string, message: string)
  {
    match Lookup(m, address)
    case None => false
    case Some(n) => n != [] && exists i :: OccursAt(message, n, i)
  }

  /** Every condition of a successful login, stated independently of the handler's order. */
  ghost predicate Accepted(m: NonceMap, address: Field, message: Field, signature: Field,
                           verifier: Verifier)
  {
    && address.Str? && address.s != []
    && message.Str? && message.s != []
    && Truthy(signature)
    && NonceMatches(m, address.s, message.s)
    && verifier(address.s, message.s, signature) == Valid
  }

  /** `POST /auth/verify` with body `{ address, message, signature }`. */
  function VerifyStep(m: NonceMap, address: Field, message: Field, signature: Field,
                      verifier: Verifier): (st: Step)
    ensures st.out.LoggedIn? <==> Accepted(m, address, message, signature, verifier)
    ensures st.out.LoggedIn? ==>
      && st.out.session == SessionCookie(address.s)
      && st.after == m - {Lower(address.s)}
    ensures !st.out.LoggedIn? ==> st.after == m
    ensures st.out == MissingFields <==> !Truthy(address) || !Truthy(message) || !Truthy(signature)
    ensures st.out == InvalidNonce <==>
      && Truthy(address) && Truthy(message) && Truthy(signature) && address.Str?
      && (message.Str? ==> !NonceMatches(m, address.s, message.s))
      && (!message.Str? ==> Lookup(m, address.s) in {None, Some([])})
    ensures st.out == InvalidSignature <==>
      && Truthy(address) && Truthy(message) && Truthy(signature)
      && address.Str? && message.Str? && NonceMatches(m, address.s, message.s)
      && verifier(address.s, message.s, signature) == Invalid
    ensures st.out.LoggedIn? || st.out in {MissingFields, InvalidNonce, InvalidSignature, ServerError}
  {
    if !Truthy(address) || !Truthy(message) || !Truthy(signature) then Step(MissingFields, m)
    // `address.toLowerCase()` throws on a non-string
    else if !address.Str? then Step(ServerError, m)
    else
      var addr := Lower(address.s);
      if addr !in m || m[addr] == [] then Step(InvalidNonce, m)
      // `message.includes(...)` throws on a non-string
      else if !message.Str? then Step(ServerError, m)
      else
        if !Contains(message.s, m[addr]) then Step(InvalidNonce, m)
        else
          match verifier(address.s, message.s, signature)
          case Throws => Step(ServerError, m)
          case Invalid => Step(InvalidSignature, m)
          case Valid => Step(LoggedIn(SessionCookie(address.s)), m - {addr})
  }

}
