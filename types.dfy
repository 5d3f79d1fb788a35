/** The entities of the blog's backend: who makes a request, the three tables
    (users, posts, comments), the shape of a request field as the validator
    sees it, and the ways a request can be refused. */
module Types {

  datatype Option<+T> = None | Some(value: T)

  datatype Result<+T, +E> = Ok(value: T) | Err(error: E)

  /** The `role` column of `users`; registration admits exactly these two. */
  datatype Role = Admin | Editor

  /** The requester as the token guard resolves it: nobody, or a user. */
  datatype Actor = Anonymous | Authenticated(id: nat, role: Role)

  /** A row of `users`. The password is only ever stored hashed. */
  datatype User = User(id: nat, name: string, email: string, passwordHash: string,
                       role: Role, createdAt: int)

  /** A row of `posts`. Timestamps are seconds on one clock, the same clock as
      the `now` every operation receives. */
  datatype Post = Post(id: nat, ownerId: nat, title: string, body: string, slug: string,
                       publishedAt: Option<int>, imagePath: Option<string>,
                       createdAt: int, updatedAt: int)

  /** A row of `comments`. */
  datatype Comment = Comment(id: nat, postId: nat, userId: nat, body: string, createdAt: int)

  /** One field of a JSON request body as the validator receives it. */
  datatype Field =
    | Absent                   // not sent
    | Null                     // sent as null
    | Text(text: string)       // a JSON string
    | Scalar(text: string)     // a number or boolean, with the text PHP casts it to
    | Structured(count: nat)   // an array or object, with its number of entries

  /** Why a request did not succeed; `Invalid` carries the names of the
      fields that failed validation. */
  datatype Failure =
    | Unauthenticated
    | Forbidden
    | NotFound
    | Invalid(fields: set<string>)
    | ServerError

  /** The HTTP status the framework answers each failure with. */
  function StatusOf(f: Failure): (code: nat)
    ensures 400 <= code < 600
    ensures f.Invalid? <==> code == 422
  {
    match f
    case Unauthenticated => 401
    case Forbidden => 403
    case NotFound => 404
    case Invalid(_) => 422
    case ServerError => 500
  }

  function ActorOf(u: User): (a: Actor)
    ensures a.Authenticated? && a.id == u.id && a.role == u.role
  {
    Authenticated(u.id, u.role)
  }
}
