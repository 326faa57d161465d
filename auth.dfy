/** The authentication middleware and the three authorization guards
    (middleware/auth.js). */
module Auth {
  import opened Wrappers
  import opened Js
  import opened Text

  /** The parts of an Express request the middleware reads: the
      `Authorization` header (absent when the client sent none) and the route
      parameters. */
  datatype Request = Request(authorization: Option<string>, params: map<string, string>)

  /** `req.params[k]`: undefined when the route has no such parameter. */
  function Param(req: Request, k: string): Value {
    if k in req.params then Str(req.params[k]) else Undefined
  }

  /** How a middleware hands control on: `next()` or `next(err)`. */
  datatype Next = Continue | Reject(error: Error)

  /** `res.locals`, the request-scoped state; `user` is absent until a token
      verifies. */
  class Locals {
    var user: Option<Obj>

    constructor ()
      ensures user == None
    {
      user := None;
    }
  }

  /** `res.locals.user` after `authenticateJWT`, given its value before. */
  function ResolveIdentity(prior: Option<Obj>, authorization: Option<string>, verify: string -> Option<Obj>): (r: Option<Obj>)
    ensures r == prior || (authorization.Some? && r.Some? && r == verify(ExtractToken(authorization.value)))
    ensures authorization.Some? && authorization.value != "" && verify(ExtractToken(authorization.value)).Some? ==>
              r == verify(ExtractToken(authorization.value))
    ensures authorization.None? || authorization.value == "" || verify(ExtractToken(authorization.value)).None? ==>
              r == prior
  {
    match authorization
    case Some(h) =>
      if h != "" && verify(ExtractToken(h)).Some? then verify(ExtractToken(h)) else prior
    case None => prior
  }

  /** `authenticateJWT(req, res, next)`: attaches the identity in a bearer
      token when it verifies and always calls `next()` without an error. */
  method AuthenticateJWT(req: Request, res: Locals, verify: string -> Option<Obj>) returns (next: Next)
    modifies res
    ensures next == Continue
    ensures res.user == ResolveIdentity(old(res.user), req.authorization, verify)
  {
    var authHeader := req.authorization;
    // an empty header is falsy and skips verification
    if authHeader.Some? && authHeader.value != "" {
      var token := ExtractToken(authHeader.value);
      var decoded := verify(token);
      // a throwing jwt.verify lands in the catch before the assignment
      if decoded.Some? {
        res.user := decoded;
      }
    }
    return Continue;
  }

  lemma NoHeaderStaysAnonymous(prior: Option<Obj>, verify: string -> Option<Obj>)
    ensures ResolveIdentity(prior, None, verify) == prior
    ensures ResolveIdentity(prior, Some(""), verify) == prior
  {
  }

  lemma FailedVerificationStaysAnonymous(prior: Option<Obj>, h: string, verify: string -> Option<Obj>)
    requires verify(ExtractToken(h)).None?
    ensures ResolveIdentity(prior, Some(h), verify) == prior
  {
  }

  /** `ensureLoggedIn`: rejects with UnauthorizedError exactly when no
      identity is attached. */
  function EnsureLoggedIn(user: Option<Obj>): (r: Next)
    ensures r == Continue <==> user.Some?
    ensures r != Continue ==> r == Reject(Unauthorized(None))
  {
    if user.None? then Reject(Unauthorized(None)) else Continue
  }

  /** `ensureAdmin`: admits exactly an identity whose `isadmin` is truthy. */
  function EnsureAdmin(user: Option<Obj>): (r: Next)
    ensures r == Continue <==> user.Some? && Truthy(Get(user.value, "isadmin"))
    ensures r != Continue ==> r == Reject(Unauthorized(None))
  {
    if user.None? || !Truthy(Get(user.value, "isadmin")) then Reject(Unauthorized(None)) else Continue
  }

  /** `ensureCorrectUserOrAdmin`: admits an admin, or the user named by the
      `:username` route parameter (compared with `===`). */
  function EnsureCorrectUserOrAdmin(user: Option<Obj>, req: Request): (r: Next)
    ensures r == Continue <==>
      user.Some? && (Truthy(Get(user.value, "isadmin")) || Get(user.value, "username") == Param(req, "username"))
    ensures r != Continue ==> r == Reject(Unauthorized(None))
  {
    if !(user.Some? && (Truthy(Get(user.value, "isadmin")) || Get(user.value, "username") == Param(req, "username"))) then
      Reject(Unauthorized(None))
    else
      Continue
  }

  /** The admin guard is the strictest of the three. */
  lemma AdminAdmitsEverywhere(user: Option<Obj>, req: Request)
    requires EnsureAdmin(user) == Continue
    ensures EnsureLoggedIn(user) == Continue
    ensures EnsureCorrectUserOrAdmin(user, req) == Continue
  {
  }

  /** Without an identity every guard rejects, whatever the route. */
  lemma AnonymousRejectedEverywhere(req: Request)
    ensures EnsureLoggedIn(None) == Reject(Unauthorized(None))
    ensures EnsureAdmin(None) == Reject(Unauthorized(None))
    ensures EnsureCorrectUserOrAdmin(None, req) == Reject(Unauthorized(None))
  {
  }
}
