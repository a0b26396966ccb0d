/**
 * Guarantees of the sign-in protocol that relate several requests: a new
 * nonce replaces the old one, a nonce is used at most once, other addresses
 * are never disturbed, case variants of an address share one entry, and
 * over the whole life of the server no address ever holds two nonces.
 */
module Protocol {
  import opened Wrappers
  import opened Strings
  import opened Auth

  /** One request to the server, with the values its collaborators produced for it. */
  datatype Request =
    | GetNonce(address: Field, minted: string)
    | PostVerify(address: Field, message: Field, signature: Field, verdict: SigOutcome)

  function Handle(m: NonceMap, req: Request): Step
  {
    match req
    case GetNonce(a, n) => NonceStep(m, a, n)
    case PostVerify(a, msg, sig, v) => VerifyStep(m, a, msg, sig, (_, _, _) => v)
  }

  /** The nonce map after handling `reqs` one at a time, starting from `m`. */
  function Run(m: NonceMap, reqs: seq<Request>): NonceMap
    decreases |reqs|
  {
    if reqs == [] then m else Run(Handle(m, reqs[0]).after, reqs[1..])
  }

  /** Requesting a nonce again, for the same address or a case variant, keeps only the second. */
  lemma ReissueReplaces(m: NonceMap, a: string, b: string, n1: string, n2: string)
    requires a != [] && CaseVariant(a, b)
    ensures var m1 := NonceStep(m, Str(a), n1).after;
            var m2 := NonceStep(m1, Str(b), n2).after;
            && m2 == NonceStep(m, Str(a), n2).after
            && Lookup(m2, a) == Some(n2) && Lookup(m2, b) == Some(n2)
  {
    CaseVariantIff(a, b);
  }

  /** After a nonce is replaced, a message that lacks the new one is refused, whatever its signature. */
  lemma StaleNonceRejected(m: NonceMap, a: string, n1: string, n2: string, message: string,
                           signature: Field, verifier: Verifier)
    requires a != [] && message != [] && Truthy(signature)
    requires !Contains(message, n2)
    ensures var m1 := NonceStep(m, Str(a), n1).after;
            var m2 := NonceStep(m1, Str(a), n2).after;
            VerifyStep(m2, Str(a), Str(message), signature, verifier).out == InvalidNonce
  {
  }

  /** A nonce is used at most once: repeating a successful login is refused. */
  lemma OneTimeUse(m: NonceMap, address: Field, message: Field, signature: Field,
                   verifier: Verifier, later: Verifier)
    requires VerifyStep(m, address, message, signature, verifier).out.LoggedIn?
    ensures var m1 := VerifyStep(m, address, message, signature, verifier).after;
            VerifyStep(m1, address, message, signature, later).out == InvalidNonce
  {
  }

  /** The nonce map changes on a login attempt exactly when the login succeeds. */
  lemma ConsumedOnlyOnSuccess(m: NonceMap, address: Field, message: Field, signature: Field,
                              verifier: Verifier)
    ensures var st := VerifyStep(m, address, message, signature, verifier);
            st.after != m <==> st.out.LoggedIn?
  {
  }

  /** The address a request acts on, if it has one. */
  function Target(req: Request): Field
  {
    match req
    case GetNonce(a, _) => a
    case PostVerify(a, _, _, _) => a
  }

  /** A request never changes the nonce of an address that is not a case variant of its own. */
  lemma OthersUndisturbed(m: NonceMap, req: Request, other: string)
    requires Target(req).Str? ==> !CaseVariant(other, Target(req).s)
    ensures Lookup(Handle(m, req).after, other) == Lookup(m, other)
  {
  }

  /** A nonce requested for one spelling of an address is the nonce of every case variant of it. */
  lemma CaseVariantsShareKey(m: NonceMap, a: string, b: string, n: string)
    requires a != []
    ensures Lookup(NonceStep(m, Str(a), n).after, b) ==
            if CaseVariant(a, b) then Some(n) else Lookup(m, b)
  {
    CaseVariantIff(a, b);
  }

  /** Handling a request keeps every key canonical. */
  lemma HandleKeepsCanonical(m: NonceMap, req: Request)
    requires Canonical(m)
    ensures Canonical(Handle(m, req).after)
  {
  }

  lemma {:induction false} RunKeepsCanonical(m: NonceMap, reqs: seq<Request>)
    requires Canonical(m)
    ensures Canonical(Run(m, reqs))
    decreases |reqs|
  {
    if reqs != [] {
      HandleKeepsCanonical(m, reqs[0]);
      RunKeepsCanonical(Handle(m, reqs[0]).after, reqs[1..]);
    }
  }

  /**
   * Starting from the empty store, whatever requests arrive, no address ever
   * has more than one outstanding nonce: every entry for it sits under one key.
   */
  lemma AtMostOneNonce(reqs: seq<Request>, a: string)
    ensures var m := Run(map[], reqs);
            forall k :: k in m && CaseVariant(k, a) ==> k == Lower(a)
  {
    RunKeepsCanonical(map[], reqs);
    OneEntryPerAddress(Run(map[], reqs), a);
  }

  /** Two addresses get the same session value exactly when they are case variants. */
  lemma SessionIdentifiesAccount(a: string, b: string)
    ensures SessionValue(a) == SessionValue(b) <==> CaseVariant(a, b)
  {
  }

  /**
   * The whole flow: request a nonce, sign a message that embeds it, log in,
   * then replay the same login.
   */
  lemma SignInFlow(m: NonceMap, a: string, n: string, message: string, signature: Field,
                   verifier: Verifier)
    requires a != [] && n != [] && Contains(message, n) && Truthy(signature)
    requires verifier(a, message, signature) == Valid
    ensures var s1 := NonceStep(m, Str(a), n);
            var s2 := VerifyStep(s1.after, Str(a), Str(message), signature, verifier);
            var s3 := VerifyStep(s2.after, Str(a), Str(message), signature, verifier);
            && s1.out == NonceIssued(n)
            && s2.out == LoggedIn(SessionCookie(a))
            && s2.after == m - {Lower(a)}
            && s3.out == InvalidNonce && s3.after == s2.after
  {
  }

}
