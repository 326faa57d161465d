/** Token creation (helpers/tokens.js) and its round trip through the
    authentication middleware and the guards. */
module Tokens {
  import opened Wrappers
  import opened Js
  import opened Text
  import opened Crypto
  import opened Auth

  /** The payload `createToken` signs: the user's `username` as given, and
      `isadmin` when truthy, else `false`. */
  function Payload(user: Obj): (p: Obj)
    ensures p.Keys == {"username", "isadmin"}
    ensures p["username"] == Get(user, "username")
    ensures Truthy(Get(user, "isadmin")) ==> p["isadmin"] == Get(user, "isadmin")
    ensures !Truthy(Get(user, "isadmin")) ==> p["isadmin"] == Bool(false)
  {
    map["username" := Get(user, "username"), "isadmin" := Or(Get(user, "isadmin"), Bool(false))]
  }

  /** `createToken(user)`. The `console.assert` on a missing `isadmin` only
      logs, so every user object gets a token. */
  function CreateToken(signer: Signer, user: Obj): (token: string)
    ensures signer.Sound() ==>
      Trimmed(token) && signer.verify(token).Some? && Extends(signer.verify(token).value, Payload(user))
  {
    signer.sign(Payload(user))
  }

  /** No property other than `username` and `isadmin` (a password above all)
      reaches the payload, so the time-free signer of this model gives the
      same token. */
  lemma TokenIgnoresOtherFields(signer: Signer, u: Obj, w: Obj)
    requires Get(u, "username") == Get(w, "username")
    requires Get(u, "isadmin") == Get(w, "isadmin")
    ensures Payload(u) == Payload(w)
    ensures CreateToken(signer, u) == CreateToken(signer, w)
  {
  }

  /** Presenting `"Bearer " + createToken(user)` (or the lower-case scheme)
      identifies the request as that user, whatever it was before, and each
      guard then decides from the user's own `username` and `isadmin`. */
  lemma {:induction false} RoundTrip(signer: Signer, user: Obj, scheme: string, prior: Option<Obj>, req: Request)
    requires signer.Sound()
    requires scheme == "Bearer " || scheme == "bearer "
    requires req.authorization == Some(scheme + CreateToken(signer, user))
    ensures var id := ResolveIdentity(prior, req.authorization, signer.verify);
      && id.Some?
      && Get(id.value, "username") == Get(user, "username")
      && EnsureLoggedIn(id) == Continue
      && (EnsureAdmin(id) == Continue <==> Truthy(Get(user, "isadmin")))
      && (EnsureCorrectUserOrAdmin(id, req) == Continue <==>
            Truthy(Get(user, "isadmin")) || Get(user, "username") == Param(req, "username"))
  {
    var p := Payload(user);
    var t := signer.sign(p);
    SignedVerifies(signer, p);
    ExtractTokenOf(t);
    var q := signer.verify(t).value;
    assert "username" in p && "isadmin" in p;
    assert Get(q, "username") == p["username"];
    assert Get(q, "isadmin") == p["isadmin"];
    assert ResolveIdentity(prior, req.authorization, signer.verify) == Some(q);
  }
}
