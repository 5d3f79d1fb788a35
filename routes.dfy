/** The API's route table: which endpoints anyone may call, which need a
    signed-in user, and which additionally need an administrator. */
module Routes {
  import opened Types

  datatype Route =
    | ListPosts | ShowPost
    | CurrentUser | Logout | ListUsers
    | StorePost | UpdatePost | DestroyPost | StoreComment
    | Register | Login

  datatype Verb = Get | PostVerb | Put | Delete

  /** The HTTP verb and path pattern each route answers. */
  function Endpoint(r: Route): (Verb, string) {
    match r
    case ListPosts => (Get, "/posts")
    case ShowPost => (Get, "/posts/{post:slug}")
    case CurrentUser => (Get, "/user")
    case Logout => (PostVerb, "/logout")
    case ListUsers => (Get, "/users")
    case StorePost => (PostVerb, "/posts")
    case UpdatePost => (Put, "/posts/{post}")
    case DestroyPost => (Delete, "/posts/{post}")
    case StoreComment => (PostVerb, "/posts/{post}/comments")
    case Register => (PostVerb, "/register")
    case Login => (PostVerb, "/login")
  }

  /** What a route demands of its requester before its handler runs. */
  datatype Guard = Public | SignedIn | SignedInAdmin

  function GuardOf(r: Route): Guard {
    match r
    case ListPosts | ShowPost | Register | Login => Public
    case ListUsers => SignedInAdmin
    case _ => SignedIn
  }

  /** The route-level answer: `None` lets the request through to its
      handler; a guest is turned away with 401 by the token guard, and a
      non-administrator on an administrator route with 403. */
  function Admit(r: Route, actor: Actor): (refusal: Option<Failure>)
    ensures refusal.None? || refusal == Some(Unauthenticated) || refusal == Some(Forbidden)
  {
    match GuardOf(r)
    case Public => None
    case SignedIn => if actor.Anonymous? then Some(Unauthenticated) else None
    case SignedInAdmin =>
      if actor.Anonymous? then Some(Unauthenticated)
      else if actor.role != Admin then Some(Forbidden)
      else None
  }

  /** The handler of `GET /user`: 401 when no user was resolved, the user
      otherwise. */
  function CurrentUserReply(resolved: Option<User>): (r: Result<User, Failure>)
    ensures r.Ok? <==> resolved.Some?
    ensures r.Ok? ==> r.value == resolved.value
    ensures r.Err? ==> r.error == Unauthenticated
  {
    match resolved
    case None => Err(Unauthenticated)
    case Some(u) => Ok(u)
  }

  /** No two routes share a verb and a path. */
  lemma EndpointsDistinct(r: Route, s: Route)
    requires r != s
    ensures Endpoint(r) != Endpoint(s)
  {
    var (v, p) := Endpoint(r);
    var (w, q) := Endpoint(s);
    if v == w {
      match r
      case ListPosts => assert p[1..] == "posts";
      case ShowPost => assert p[7] == '{';
      case CurrentUser => assert p[1..] == "user";
      case Logout => assert p[1] == 'l';
      case ListUsers => assert p[1..] == "users";
      case StorePost => assert p[1..] == "posts";
      case UpdatePost | DestroyPost =>
      case StoreComment => assert |p| == 22;
      case Register => assert p[1] == 'r';
      case Login => assert p[1] == 'l' && |p| == 6;
    }
  }

  lemma ReadingAndSigningInArePublic(actor: Actor)
    ensures Admit(ListPosts, actor).None? && Admit(ShowPost, actor).None?
    ensures Admit(Register, actor).None? && Admit(Login, actor).None?
  {
  }

  /** Writing posts or comments, reading the current user and signing out
      need a user, of either role. */
  lemma WritingNeedsSignIn(r: Route, actor: Actor)
    requires r in {StorePost, UpdatePost, DestroyPost, StoreComment, CurrentUser, Logout}
    ensures Admit(r, actor).None? <==> actor.Authenticated?
    ensures actor.Anonymous? ==> Admit(r, actor) == Some(Unauthenticated)
  {
  }

  lemma UserListNeedsAdmin(actor: Actor)
    ensures Admit(ListUsers, actor).None? <==> actor.Authenticated? && actor.role == Admin
    ensures actor.Anonymous? ==> Admit(ListUsers, actor) == Some(Unauthenticated)
    ensures actor.Authenticated? && actor.role == Editor ==> Admit(ListUsers, actor) == Some(Forbidden)
  {
  }

  /** Guarded routes never let a guest through, so the `/user` handler's own
      401 answer is reached only if the token guard resolved no user, which
      it refuses first. */
  lemma CurrentUserBehindGuard(actor: Actor, resolved: Option<User>)
    requires Admit(CurrentUser, actor).None?
    requires actor.Authenticated? <==> resolved.Some?
    ensures CurrentUserReply(resolved).Ok?
  {
  }
}
