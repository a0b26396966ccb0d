/**
 * The server's process-wide nonce store and its two request handlers, in the
 * imperative form they have in the server: straight-line guards with early
 * returns, and in-place updates of the one shared map.
 */
module Server {
  import opened Wrappers
  import opened Strings
  import opened Auth

  class NonceRegistry {
    /** Canonical (lower-case) address -> its one outstanding nonce. */
    var nonces: NonceMap

    ghost predicate Valid()
      reads this
    {
      Canonical(nonces)
    }

    /** The store starts empty when the server starts. */
    constructor ()
      ensures Valid() && nonces == map[]
    {
      nonces := map[];
    }

    /**
     * `GET /auth/nonce?address=...`; `minted` is the value the random
     * generator produced for this request.
     */
    method RequestNonce(address: Field, minted: string) returns (r: Outcome)
      requires Valid()
      modifies this`nonces
      ensures Valid()
      ensures Step(r, nonces) == NonceStep(old(nonces), address, minted)
      ensures r.NonceIssued? ==> Lookup(nonces, address.s) == Some(r.nonce)
    {
      if !Truthy(address) || !address.Str? {
        return AddressRequired;
      }
      var addr := Lower(address.s);
      LowerIdempotent(address.s);
      nonces := nonces[addr := minted];
      return NonceIssued(minted);
    }

    /**
     * `nonces.get(address.toLowerCase())`: the nonce outstanding for an
     * address. Because every key is canonical, it is the nonce of each stored
     * key that is a case variant of the address, and there is one at most.
     */
    method NonceFor(address: string) returns (n: Option<string>)
      requires Valid()
      ensures n == Lookup(nonces, address)
      ensures n.Some? <==> exists k :: k in nonces && CaseVariant(k, address)
      ensures forall k :: k in nonces && CaseVariant(k, address) ==> k == Lower(address) && n == Some(nonces[k])
    {
      OneEntryPerAddress(nonces, address);
      var addr := Lower(address);
      n := if addr in nonces then Some(nonces[addr]) else None;
    }

    /**
     * `POST /auth/verify` with body `{ address, message, signature }`;
     * `verifier` stands for the signature primitive.
     */
    method VerifyLogin(address: Field, message: Field, signature: Field, verifier: Verifier)
      returns (r: Outcome)
      requires Valid()
      modifies this`nonces
      ensures Valid()
      ensures Step(r, nonces) == VerifyStep(old(nonces), address, message, signature, verifier)
      ensures r.LoggedIn? <==> nonces != old(nonces)
    {
      if !Truthy(address) || !Truthy(message) || !Truthy(signature) {
        return MissingFields;
      }
      if !address.Str? {
        // `toLowerCase` is not a function of a non-string: the exception is caught
        return ServerError;
      }
      var addr := Lower(address.s);
      var expected := NonceFor(address.s);
      if expected == None || expected.value == [] {
        return InvalidNonce;
      }
      if !message.Str? {
        // `includes` is not a function of a non-string: the exception is caught
        return ServerError;
      }
      if !Contains(message.s, expected.value) {
        return InvalidNonce;
      }
      var ok := verifier(address.s, message.s, signature);
      if ok == Throws {
        return ServerError;
      }
      if ok == Invalid {
        return InvalidSignature;
      }
      nonces := nonces - {addr};
      assert addr in old(nonces) && addr !in nonces;
      var sessionValue := "user:" + addr;
      return LoggedIn(Cookie("session", sessionValue, true, false, "lax", "/"));
    }
  }

}
