/** The backend's state-changing requests over its three tables and its
    issued tokens. Each method takes the requester (or the token itself,
    for sign-out): on a guarded route the one the token guard resolved, on
    the public listing and show routes the holder of the bearer token sent,
    if any, which the model assumes the default guard also resolves. It
    answers in the order the framework decides a request: the token guard
    (401), route model binding (404), the controller's resource
    authorization (403), the form request (403, then 422), and finally the
    handler, whose database write may be refused (500). A refused request changes nothing. */
module Blog {
  import opened Types
  import DateFormat
  import PostPolicy
  import Routes
  import opened PostRequests
  import PostController
  import CommentController
  import AuthController
  import UserController

  predicate SlugTaken(posts: map<nat, Post>, slug: string) {
    exists k :: k in posts && posts[k].slug == slug
  }

  function EmailsOf(users: seq<User>): set<string> {
    set i | 0 <= i < |users| :: users[i].email
  }

  /** The user with this id, if any. */
  function UserById(users: seq<User>, id: nat): (r: Option<User>)
    ensures r.Some? ==> r.value in users && r.value.id == id
    ensures r.None? ==> forall i :: 0 <= i < |users| ==> users[i].id != id
  {
    if |users| == 0 then None
    else if users[0].id == id then Some(users[0])
    else
      var r := UserById(users[1..], id);
      assert forall i :: 1 <= i < |users| ==> users[i] == users[1..][i - 1];
      r
  }

  /** The answer to `POST /posts` on a table `posts` whose next id is
      `nextId`: 401 for a guest, 422 for a request the rules refuse, 500
      when the title's slug is already taken, and otherwise the new post,
      owned by the requester. */
  function StoreDecision(actor: Actor, payload: PostPayload, posts: map<nat, Post>, nextId: nat,
                         slugOf: string -> string, now: int): (r: Result<Post, Failure>)
    ensures actor.Anonymous? ==> r == Err(Unauthenticated)
    ensures actor.Authenticated? ==>
              (r.Err? && r.error.Invalid? <==> StoreErrors(payload, TitlesOf(posts)) != {})
    ensures r.Err? && r.error.Invalid? ==> r.error == Invalid(StoreErrors(payload, TitlesOf(posts)))
    ensures r.Err? ==> r.error in {Unauthenticated, ServerError} || r.error.Invalid?
    ensures r.Ok? ==> && actor.Authenticated? && r.value.ownerId == actor.id && r.value.id == nextId
                      && payload.title == Text(r.value.title) && r.value.slug == slugOf(r.value.title)
                      && r.value.title !in TitlesOf(posts) && !SlugTaken(posts, r.value.slug)
                      && payload.body == Text(r.value.body)
                      && (r.value.imagePath.None? <==> Unset(payload.imagePath))
                      && (r.value.imagePath.Some? ==> payload.imagePath == Text(r.value.imagePath.value))
                      && (r.value.publishedAt.None? <==> Unset(payload.publishedAt))
                      && (r.value.publishedAt.Some? ==> SentAt(payload.publishedAt, r.value.publishedAt.value))
                      && r.value.createdAt == now && r.value.updatedAt == now
    ensures actor.Authenticated? && StoreErrors(payload, TitlesOf(posts)) == {} ==>
              && payload.title.Text?
              && (r.Err? ==> r == Err(ServerError))
              && (r.Ok? <==> !SlugTaken(posts, slugOf(payload.title.text)))
  {
    match Routes.Admit(Routes.StorePost, actor)
    case Some(refusal) => Err(refusal)
    case None =>
      if !PostPolicy.Allows(actor, PostPolicy.CreatePost, now) then Err(Forbidden)
      else
        match ValidateStore(actor, payload, TitlesOf(posts))
        case Err(e) => Err(e)
        case Ok(d) =>
          PostController.StoreRecord(actor, payload, TitlesOf(posts), nextId, slugOf, now);
          if SlugTaken(posts, slugOf(d.title)) then Err(ServerError)
          else Ok(PostController.NewPost(nextId, actor.id, d, slugOf(d.title), now))
  }

  /** The answer to `PUT /posts/{id}`: 401, 404, 403 unless the requester
      owns the post or is an administrator, 422, 500 when the new slug is
      another post's, and otherwise the post with the sent fields applied. */
  function UpdateDecision(actor: Actor, id: nat, payload: PostPayload, posts: map<nat, Post>,
                          slugOf: string -> string, now: int): (r: Result<Post, Failure>)
    ensures actor.Anonymous? ==> r == Err(Unauthenticated)
    ensures actor.Authenticated? && id !in posts ==> r == Err(NotFound)
    ensures actor.Authenticated? && id in posts && !PostPolicy.Update(actor, posts[id]) ==> r == Err(Forbidden)
    ensures actor.Authenticated? && id in posts && PostPolicy.Update(actor, posts[id]) ==>
              (r.Err? && r.error.Invalid? <==> UpdateErrors(payload, TitlesExcept(posts, id)) != {})
    ensures r.Err? && r.error.Invalid? ==> r.error == Invalid(UpdateErrors(payload, TitlesExcept(posts, id)))
    ensures r.Ok? ==> && actor.Authenticated? && id in posts && PostPolicy.Update(actor, posts[id])
                      && r.value.id == posts[id].id && r.value.ownerId == posts[id].ownerId
                      && r.value.createdAt == posts[id].createdAt
                      && (payload.title.Absent? ==> r.value.title == posts[id].title && r.value.slug == posts[id].slug)
                      && (!payload.title.Absent? ==> payload.title == Text(r.value.title) &&
                                                     r.value.slug == slugOf(r.value.title) &&
                                                     r.value.title !in TitlesExcept(posts, id))
                      && !SlugTaken(posts - {id}, r.value.slug)
                      && (payload.body.Absent? ==> r.value.body == posts[id].body)
                      && (!payload.body.Absent? ==> payload.body == Text(r.value.body))
                      && (payload.imagePath.Absent? ==> r.value.imagePath == posts[id].imagePath)
                      && (!payload.imagePath.Absent? ==>
                            && (r.value.imagePath.None? <==> Unset(payload.imagePath))
                            && (r.value.imagePath.Some? ==> payload.imagePath == Text(r.value.imagePath.value)))
                      && (payload.publishedAt.Absent? ==> r.value.publishedAt == posts[id].publishedAt)
                      && (!payload.publishedAt.Absent? ==>
                            && (r.value.publishedAt.None? <==> Unset(payload.publishedAt))
                            && (r.value.publishedAt.Some? ==> SentAt(payload.publishedAt, r.value.publishedAt.value)))
                      && (r.value.updatedAt == posts[id].updatedAt || r.value.updatedAt == now)
                      && (r.value != posts[id] ==> r.value.updatedAt == now)
                      && (r.value.(updatedAt := posts[id].updatedAt) == posts[id] ==> r.value == posts[id])
    ensures actor.Authenticated? && id in posts && PostPolicy.Update(actor, posts[id]) &&
            UpdateErrors(payload, TitlesExcept(posts, id)) == {} ==>
              && (payload.title.Absent? || payload.title.Text?)
              && (r.Err? ==> r == Err(ServerError))
              && (r.Ok? <==> !SlugTaken(posts - {id}, if payload.title.Text? then slugOf(payload.title.text)
                                                      else posts[id].slug))
  {
    match Routes.Admit(Routes.UpdatePost, actor)
    case Some(refusal) => Err(refusal)
    case None =>
      if id !in posts then Err(NotFound)
      else if !PostPolicy.Allows(actor, PostPolicy.UpdatePost(posts[id]), now) then Err(Forbidden)
      else
        match ValidateUpdate(actor, payload, TitlesExcept(posts, id))
        case Err(e) => Err(e)
        case Ok(d) =>
          PostController.UpdateRecord(posts[id], d, slugOf, now);
          var q := PostController.ApplyUpdate(posts[id], d, slugOf, now);
          if SlugTaken(posts - {id}, q.slug) then Err(ServerError) else Ok(q)
  }

  /** An accepted update keeps titles unique: a sent title is no other
      post's, and a title not sent is unchanged. */
  lemma UpdateKeepsTitlesUnique(posts: map<nat, Post>, id: nat, d: UpdateData, slugOf: string -> string, now: int)
    requires id in posts && PostController.UpdateDatesValid(d)
    requires forall a, b :: a in posts && b in posts && a != b ==> posts[a].title != posts[b].title
    requires d.title.Some? ==> d.title.value !in TitlesExcept(posts, id)
    ensures forall k :: k in posts && k != id ==>
              posts[k].title != PostController.ApplyUpdate(posts[id], d, slugOf, now).title
  {
  }

  /** With distinct ids, looking a stored user up by id finds that user. */
  lemma UserByIdFinds(users: seq<User>, u: User)
    requires u in users
    requires forall i, j :: 0 <= i < j < |users| ==> users[i].id != users[j].id
    ensures UserById(users, u.id) == Some(u)
  {
  }

  /** The ids of the rows the requester may list. */
  function ListedIds(actor: Actor, rows: seq<Post>, now: int): set<nat> {
    set i | 0 <= i < |rows| && PostController.Listed(actor, rows[i], now) :: rows[i].id
  }

  /** With distinct ids, the listing filter keeps one row per listed id. */
  lemma {:induction false} ListedCount(actor: Actor, rows: seq<Post>, now: int)
    requires forall i, j :: 0 <= i < j < |rows| ==> rows[i].id != rows[j].id
    ensures |PostController.FilterListed(actor, rows, now)| == |ListedIds(actor, rows, now)|
  {
    if rows != [] {
      ListedCount(actor, rows[1..], now);
      ListedIdsSplit(actor, rows, now);
    }
  }

  /** Read off a table keyed by id, each row once, the listing holds one
      row per listed post of the table. */
  lemma ListedTotal(actor: Actor, posts: map<nat, Post>, rows: seq<Post>, now: int)
    requires forall k :: k in posts ==> posts[k].id == k
    requires forall i :: 0 <= i < |rows| ==> rows[i].id in posts && posts[rows[i].id] == rows[i]
    requires forall k :: k in posts ==> posts[k] in rows
    requires forall i, j :: 0 <= i < j < |rows| ==> rows[i].id != rows[j].id
    ensures |PostController.FilterListed(actor, rows, now)| ==
              |set k | k in posts && PostController.Listed(actor, posts[k], now)|
  {
    ListedCount(actor, rows, now);
    ListedIdsAreKeys(actor, posts, rows, now);
  }

  lemma ListedIdsAreKeys(actor: Actor, posts: map<nat, Post>, rows: seq<Post>, now: int)
    requires forall k :: k in posts ==> posts[k].id == k
    requires forall i :: 0 <= i < |rows| ==> rows[i].id in posts && posts[rows[i].id] == rows[i]
    requires forall k :: k in posts ==> posts[k] in rows
    ensures ListedIds(actor, rows, now) == set k | k in posts && PostController.Listed(actor, posts[k], now)
  {
    var keys := set k | k in posts && PostController.Listed(actor, posts[k], now);
    forall k | k in keys ensures k in ListedIds(actor, rows, now) {
      var i :| 0 <= i < |rows| && rows[i] == posts[k];
      assert rows[i].id == k;
    }
  }

  /** The first row's id, if listed, joins the ids of the rest, where it does
      not already occur. */
  lemma ListedIdsSplit(actor: Actor, rows: seq<Post>, now: int)
    requires rows != []
    requires forall i, j :: 0 <= i < j < |rows| ==> rows[i].id != rows[j].id
    ensures rows[0].id !in ListedIds(actor, rows[1..], now)
    ensures ListedIds(actor, rows, now) ==
              (if PostController.Listed(actor, rows[0], now) then {rows[0].id} else {}) + ListedIds(actor, rows[1..], now)
  {
    var rest := rows[1..];
    var later := ListedIds(actor, rest, now);
    forall x | x in ListedIds(actor, rows, now)
      ensures x in later || (x == rows[0].id && PostController.Listed(actor, rows[0], now))
    {
      var i :| 0 <= i < |rows| && PostController.Listed(actor, rows[i], now) && rows[i].id == x;
      if i > 0 {
        assert rest[i - 1] == rows[i];
      }
    }
    forall x | x in later ensures x in ListedIds(actor, rows, now) {
      var j :| 0 <= j < |rest| && PostController.Listed(actor, rest[j], now) && rest[j].id == x;
      assert rows[j + 1] == rest[j];
    }
  }

  /** The reply to a successful sign-in: the new token and its user. */
  datatype Session = Session(token: nat, user: User)

  class Blog {
    /** `Str::slug`, the password hasher and the e-mail validator, which the
        model takes as given functions. */
    const slugOf: string -> string
    const hashOf: string -> string
    const isEmail: string -> bool

    var users: seq<User>
    var posts: map<nat, Post>
    var comments: seq<Comment>
    /** Issued personal access tokens: token id to the id of its user. */
    var tokens: map<nat, nat>

    var nextUserId: nat
    var nextPostId: nat
    var nextCommentId: nat
    var nextTokenId: nat

    /** Posts are keyed by their id; no two posts share a slug (the unique
        index on `posts.slug`) or a title (the `unique` rule of both form
        requests); no two users share an id or an e-mail address (the
        `unique:users` rule); ids and token ids are below their counters. */
    ghost predicate Valid()
      reads this
    {
      && (forall k :: k in posts ==> posts[k].id == k && k < nextPostId)
      && (forall a, b :: a in posts && b in posts && a != b ==> posts[a].slug != posts[b].slug)
      && (forall a, b :: a in posts && b in posts && a != b ==> posts[a].title != posts[b].title)
      && (forall i :: 0 <= i < |users| ==> users[i].id < nextUserId)
      && (forall i, j :: 0 <= i < j < |users| ==> users[i].id != users[j].id && users[i].email != users[j].email)
      && (forall c :: c in comments ==> c.id < nextCommentId)
      && (forall t :: t in tokens ==> t < nextTokenId)
    }

    constructor (slugOf: string -> string, hashOf: string -> string, isEmail: string -> bool)
      ensures Valid()
      ensures this.slugOf == slugOf && this.hashOf == hashOf && this.isEmail == isEmail
      ensures users == [] && posts == map[] && comments == [] && tokens == map[]
    {
      this.slugOf := slugOf;
      this.hashOf := hashOf;
      this.isEmail := isEmail;
      users := [];
      posts := map[];
      comments := [];
      tokens := map[];
      nextUserId := 1;
      nextPostId := 1;
      nextCommentId := 1;
      nextTokenId := 1;
    }

    /** The user a bearer token stands for, as the token guard resolves it. */
    function Holder(token: Option<nat>): (u: Option<User>)
      reads this
      ensures u.Some? ==> token.Some? && token.value in tokens && u.value in users && u.value.id == tokens[token.value]
      ensures token.None? || token.value !in tokens ==> u.None?
    {
      if token.Some? && token.value in tokens then UserById(users, tokens[token.value]) else None
    }

    function Requester(token: Option<nat>): (a: Actor)
      reads this
      ensures a.Authenticated? <==> Holder(token).Some?
      ensures a.Authenticated? ==> a.id == Holder(token).value.id && a.role == Holder(token).value.role
    {
      match Holder(token)
      case None => Anonymous
      case Some(u) => ActorOf(u)
    }

    /** `GET /user`: the token's holder, or 401. */
    function CurrentUser(token: Option<nat>): (r: Result<User, Failure>)
      reads this
      ensures r.Ok? <==> Requester(token).Authenticated?
      ensures r.Ok? ==> r.value in users && token.Some? && token.value in tokens && r.value.id == tokens[token.value]
      ensures r.Err? ==> r.error == Unauthenticated
    {
      match Routes.Admit(Routes.CurrentUser, Requester(token))
      case Some(refusal) => Err(refusal)
      case None => Routes.CurrentUserReply(Holder(token))
    }

    /** `GET /users`: 401 for a guest, 403 for an editor, and for an
        administrator every user without the password hash. */
    function ListUsers(actor: Actor): (r: Result<seq<UserController.UserSummary>, Failure>)
      reads this
      ensures actor.Anonymous? ==> r == Err(Unauthenticated)
      ensures actor.Authenticated? && actor.role == Editor ==> r == Err(Forbidden)
      ensures r.Ok? <==> actor.Authenticated? && actor.role == Admin
      ensures r.Ok? ==> |r.value| == |users| &&
                        forall i :: 0 <= i < |users| ==> r.value[i] == UserController.Summarize(users[i])
    {
      match Routes.Admit(Routes.ListUsers, actor)
      case Some(refusal) => Err(refusal)
      case None =>
        var reply := UserController.Index(actor, users);
        assert reply.Ok? ==> forall i :: 0 <= i < |users| ==> reply.value[i] == UserController.Summarize(users[i]);
        reply
    }

    /** The rows of `posts`, in some order: every stored post exactly once. */
    method Rows() returns (rows: seq<Post>)
      requires Valid()
      ensures |rows| == |posts|
      ensures forall i :: 0 <= i < |rows| ==> rows[i].id in posts && posts[rows[i].id] == rows[i]
      ensures forall k :: k in posts ==> posts[k] in rows
      ensures forall i, j :: 0 <= i < j < |rows| ==> rows[i].id != rows[j].id
    {
      rows := [];
      var left := posts.Keys;
      while left != {}
        invariant left <= posts.Keys
        invariant |rows| + |left| == |posts|
        invariant forall i :: 0 <= i < |rows| ==> rows[i].id in posts && rows[i].id !in left && posts[rows[i].id] == rows[i]
        invariant forall k :: k in posts && k !in left ==> posts[k] in rows
        invariant forall i, j :: 0 <= i < j < |rows| ==> rows[i].id != rows[j].id
        decreases left
      {
        var k :| k in left;
        rows := rows + [posts[k]];
        left := left - {k};
      }
    }

    /** `GET /posts`: page `requested` of the posts the requester may list,
        latest update first. `rows` is the table as it was read, before
        filtering, ordering and paging. */
    method ListPosts(actor: Actor, now: int, requested: Option<int>)
      returns (r: PostController.Paginated, ghost rows: seq<Post>)
      requires Valid()
      ensures |rows| == |posts|
      ensures forall i :: 0 <= i < |rows| ==> rows[i].id in posts && posts[rows[i].id] == rows[i]
      ensures forall k :: k in posts ==> posts[k] in rows
      ensures forall i, j :: 0 <= i < j < |rows| ==> rows[i].id != rows[j].id
      ensures r == PostController.Index(actor, rows, now, requested)
      ensures |r.data| <= PostController.PerPage && r.currentPage == PostController.ResolvePage(requested)
      ensures forall i :: 0 <= i < |r.data| ==>
                r.data[i].id in posts && posts[r.data[i].id] == r.data[i] && PostController.Listed(actor, r.data[i], now)
      ensures forall i, j :: 0 <= i < j < |r.data| ==> r.data[i].updatedAt >= r.data[j].updatedAt
      ensures r.total == |set k | k in posts && PostController.Listed(actor, posts[k], now)|
      ensures r.total <= |posts| && r.lastPage == PostController.LastPage(r.total)
      ensures |r.data| == PostController.PageLength(r.total, r.currentPage)
      ensures actor.Authenticated? ==> r.total == |posts|
    {
      var read := Rows();
      rows := read;
      r := PostController.Index(actor, read, now, requested);
      ListedTotal(actor, posts, rows, now);
      if actor.Authenticated? {
        PostController.StaffSeeEverything(actor, rows, now);
      }
    }

    /** `GET /posts/{slug}`: the post with this slug (there is at most one),
        404 when there is none, 403 when the requester may not view it. */
    method ShowPost(actor: Actor, slug: string, now: int) returns (r: Result<Post, Failure>)
      requires Valid()
      ensures r == Err(NotFound) <==> !SlugTaken(posts, slug)
      ensures r.Ok? ==> r.value.slug == slug && r.value.id in posts && posts[r.value.id] == r.value
                        && PostPolicy.View(actor, r.value, now)
      ensures forall k :: k in posts && posts[k].slug == slug ==>
                (r.Ok? <==> PostPolicy.View(actor, posts[k], now)) && (r.Ok? ==> r.value == posts[k])
      ensures r.Err? ==> r.error == NotFound || r.error == Forbidden
    {
      var bound: Option<Post> := None;
      if k :| k in posts && posts[k].slug == slug {
        bound := Some(posts[k]);
      }
      r := PostController.Show(actor, bound, now);
    }

    /** `POST /posts`: on success the post `StoreDecision` describes is
        added under its new id. */
    method StorePost(actor: Actor, payload: PostPayload, now: int) returns (r: Result<Post, Failure>)
      requires Valid()
      modifies this
      ensures Valid()
      ensures nextUserId == old(nextUserId) && nextCommentId == old(nextCommentId) && nextTokenId == old(nextTokenId)
      ensures nextPostId == old(nextPostId) + (if r.Ok? then 1 else 0)
      ensures users == old(users) && comments == old(comments) && tokens == old(tokens)
      ensures r == StoreDecision(actor, payload, old(posts), old(nextPostId), slugOf, now)
      ensures r.Ok? ==> r.value.id !in old(posts) && posts == old(posts)[r.value.id := r.value]
      ensures r.Err? ==> posts == old(posts)
    {
      var refusal := Routes.Admit(Routes.StorePost, actor);
      if refusal.Some? {
        return Err(refusal.value);
      }
      if !PostPolicy.Allows(actor, PostPolicy.CreatePost, now) {
        return Err(Forbidden);
      }
      var v := ValidateStore(actor, payload, TitlesOf(posts));
      if v.Err? {
        return Err(v.error);
      }
      var d := v.value;
      var slug := slugOf(d.title);
      if SlugTaken(posts, slug) {
        return Err(ServerError);
      }
      var post := PostController.NewPost(nextPostId, actor.id, d, slug, now);
      assert d.title !in TitlesOf(posts);
      posts := posts[post.id := post];
      nextPostId := nextPostId + 1;
      r := Ok(post);
    }

    /** `PUT /posts/{id}`: on success the post is replaced by the one
        `UpdateDecision` describes. */
    method UpdatePost(actor: Actor, id: nat, payload: PostPayload, now: int) returns (r: Result<Post, Failure>)
      requires Valid()
      modifies this
      ensures Valid()
      ensures nextUserId == old(nextUserId) && nextPostId == old(nextPostId)
      ensures nextCommentId == old(nextCommentId) && nextTokenId == old(nextTokenId)
      ensures users == old(users) && comments == old(comments) && tokens == old(tokens)
      ensures r == UpdateDecision(actor, id, payload, old(posts), slugOf, now)
      ensures r.Ok? ==> posts == old(posts)[id := r.value]
      ensures r.Err? ==> posts == old(posts)
    {
      var refusal := Routes.Admit(Routes.UpdatePost, actor);
      if refusal.Some? {
        return Err(refusal.value);
      }
      if id !in posts {
        return Err(NotFound);
      }
      var post := posts[id];
      if !PostPolicy.Allows(actor, PostPolicy.UpdatePost(post), now) {
        return Err(Forbidden);
      }
      var v := ValidateUpdate(actor, payload, TitlesExcept(posts, id));
      if v.Err? {
        return Err(v.error);
      }
      var q := PostController.ApplyUpdate(post, v.value, slugOf, now);
      if SlugTaken(posts - {id}, q.slug) {
        return Err(ServerError);
      }
      assert q.id == id;
      UpdateKeepsTitlesUnique(posts, id, v.value, slugOf, now);
      assert forall k :: k in posts && k != id ==> posts[k].slug != q.slug by {
        forall k | k in posts && k != id ensures posts[k].slug != q.slug {
          assert k in posts - {id};
        }
      }
      posts := posts[id := q];
      r := Ok(q);
    }

    /** `DELETE /posts/{id}`: on success the post is gone (204, no body). */
    method DestroyPost(actor: Actor, id: nat, now: int) returns (r: Result<(), Failure>)
      requires Valid()
      modifies this
      ensures Valid()
      ensures nextUserId == old(nextUserId) && nextPostId == old(nextPostId)
      ensures nextCommentId == old(nextCommentId) && nextTokenId == old(nextTokenId)
      ensures users == old(users) && comments == old(comments) && tokens == old(tokens)
      ensures actor.Anonymous? ==> r == Err(Unauthenticated)
      ensures actor.Authenticated? && id !in old(posts) ==> r == Err(NotFound)
      ensures actor.Authenticated? && id in old(posts) ==>
                (r.Ok? <==> PostPolicy.Delete(actor, old(posts)[id])) && (r.Err? ==> r.error == Forbidden)
      ensures r.Ok? ==> posts == old(posts) - {id}
      ensures r.Err? ==> posts == old(posts)
    {
      var refusal := Routes.Admit(Routes.DestroyPost, actor);
      if refusal.Some? {
        return Err(refusal.value);
      }
      if id !in posts {
        return Err(NotFound);
      }
      if !PostPolicy.Allows(actor, PostPolicy.DeletePost(posts[id]), now) {
        return Err(Forbidden);
      }
      posts := posts - {id};
      r := Ok(());
    }

    /** `POST /posts/{id}/comments`. `dbFails` stands for the insert
        throwing and `loadFails` for loading the comment's author throwing
        after the insert; the handler answers both with 500, and in the
        second case the comment stays stored. */
    method StoreComment(actor: Actor, postId: nat, body: Field, dbFails: bool, loadFails: bool, now: int)
      returns (r: Result<Comment, Failure>)
      requires Valid()
      modifies this
      ensures Valid()
      ensures nextUserId == old(nextUserId) && nextPostId == old(nextPostId) && nextTokenId == old(nextTokenId)
      ensures users == old(users) && posts == old(posts) && tokens == old(tokens)
      ensures actor.Anonymous? ==> r == Err(Unauthenticated)
      ensures actor.Authenticated? && postId !in posts ==> r == Err(NotFound)
      ensures actor.Authenticated? && postId in posts ==>
                var c := CommentController.CheckComment(actor, body);
                && (c.Err? ==> r == Err(c.error))
                && (c.Ok? && (dbFails || loadFails) ==> r == Err(ServerError))
                && (c.Ok? && !dbFails && !loadFails ==>
                      r == Ok(CommentController.NewComment(old(nextCommentId), postId, actor.id, c.value, now)))
      ensures var inserted := actor.Authenticated? && postId in posts &&
                              CommentController.CheckComment(actor, body).Ok? && !dbFails;
              && (inserted ==>
                    && comments == old(comments) + [CommentController.NewComment(old(nextCommentId), postId, actor.id,
                                                                                  CommentController.CheckComment(actor, body).value, now)]
                    && nextCommentId == old(nextCommentId) + 1)
              && (!inserted ==> comments == old(comments) && nextCommentId == old(nextCommentId))
      ensures r.Ok? ==> comments == old(comments) + [r.value]
    {
      var refusal := Routes.Admit(Routes.StoreComment, actor);
      if refusal.Some? {
        return Err(refusal.value);
      }
      if postId !in posts {
        return Err(NotFound);
      }
      var c := CommentController.CheckComment(actor, body);
      if c.Err? {
        return Err(c.error);
      }
      if dbFails {
        return Err(ServerError);
      }
      var comment := CommentController.NewComment(nextCommentId, postId, actor.id, c.value, now);
      comments := comments + [comment];
      nextCommentId := nextCommentId + 1;
      if loadFails {
        return Err(ServerError);
      }
      r := Ok(comment);
    }

    /** `POST /register`: 201 with the new user, or 422. */
    method Register(payload: AuthController.RegistrationPayload, now: int) returns (r: Result<User, Failure>)
      requires Valid()
      modifies this
      ensures Valid()
      ensures nextPostId == old(nextPostId) && nextCommentId == old(nextCommentId) && nextTokenId == old(nextTokenId)
      ensures nextUserId == old(nextUserId) + (if r.Ok? then 1 else 0)
      ensures posts == old(posts) && comments == old(comments) && tokens == old(tokens)
      ensures var v := AuthController.ValidateRegistration(payload, EmailsOf(old(users)), isEmail);
              && (v.Err? ==> r == Err(v.error) && users == old(users))
              && (v.Ok? ==> r == Ok(AuthController.NewUser(old(nextUserId), v.value, hashOf, now)))
      ensures r.Ok? ==> users == old(users) + [r.value] && r.value.email !in EmailsOf(old(users))
    {
      var v := AuthController.ValidateRegistration(payload, EmailsOf(users), isEmail);
      if v.Err? {
        return Err(v.error);
      }
      var u := AuthController.NewUser(nextUserId, v.value, hashOf, now);
      assert forall i :: 0 <= i < |users| ==> users[i].email in EmailsOf(users);
      users := users + [u];
      nextUserId := nextUserId + 1;
      r := Ok(u);
    }

    /** `POST /login`: on success a new token is issued to the user. */
    method Login(payload: AuthController.LoginPayload) returns (r: Result<Session, Failure>)
      requires Valid()
      modifies this
      ensures Valid()
      ensures nextUserId == old(nextUserId) && nextPostId == old(nextPostId) && nextCommentId == old(nextCommentId)
      ensures nextTokenId == old(nextTokenId) + (if r.Ok? then 1 else 0)
      ensures users == old(users) && posts == old(posts) && comments == old(comments)
      ensures var v := AuthController.Login(payload, old(users), isEmail, hashOf);
              && (v.Err? ==> r == Err(v.error) && tokens == old(tokens))
              && (v.Ok? ==> r == Ok(Session(old(nextTokenId), v.value)))
      ensures r.Ok? ==> r.value.token !in old(tokens) && tokens == old(tokens)[r.value.token := r.value.user.id]
      ensures r.Ok? ==> Holder(Some(r.value.token)) == Some(r.value.user)
    {
      var v := AuthController.Login(payload, users, isEmail, hashOf);
      if v.Err? {
        return Err(v.error);
      }
      var token := nextTokenId;
      UserByIdFinds(users, v.value);
      tokens := tokens[token := v.value.id];
      nextTokenId := nextTokenId + 1;
      r := Ok(Session(token, v.value));
    }

    /** `POST /logout`: revokes only the token the request was made with;
        the user's other tokens stay valid. */
    method Logout(token: Option<nat>) returns (r: Result<(), Failure>)
      requires Valid()
      modifies this
      ensures Valid()
      ensures nextUserId == old(nextUserId) && nextPostId == old(nextPostId)
      ensures nextCommentId == old(nextCommentId) && nextTokenId == old(nextTokenId)
      ensures users == old(users) && posts == old(posts) && comments == old(comments)
      ensures r.Err? <==> old(Holder(token)).None?
      ensures r.Err? ==> r.error == Unauthenticated && tokens == old(tokens)
      ensures r.Ok? ==> token.Some? && token.value in old(tokens) && tokens == old(tokens) - {token.value}
      ensures forall t :: t in old(tokens) && Some(t) != token ==> t in tokens && tokens[t] == old(tokens)[t]
      ensures Holder(token).None?
    {
      if Holder(token).None? {
        return Err(Unauthenticated);
      }
      tokens := tokens - {token.value};
      r := Ok(());
    }
  }

  /** The slug names at most one post, so binding `{post:slug}` is
      unambiguous. */
  lemma SlugIdentifiesPost(b: Blog, k: nat, l: nat)
    requires b.Valid()
    requires k in b.posts && l in b.posts && b.posts[k].slug == b.posts[l].slug
    ensures k == l
  {
  }
}
