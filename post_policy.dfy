/** Who may list, view, create, update and delete posts, and how the
    framework's gate consults these rules for a requester who may be
    nobody. */
module PostPolicy {
  import opened Types

  /** Listing posts: every requester, signed in or not. */
  predicate ViewAny(actor: Actor) {
    true
  }

  /** `published_at` is set and lies strictly in the past. */
  predicate IsPast(publishedAt: Option<int>, now: int) {
    publishedAt.Some? && publishedAt.value < now
  }

  predicate OwnsOrAdministers(actor: Actor, post: Post)
    requires actor.Authenticated?
  {
    actor.id == post.ownerId || actor.role == Admin
  }

  /** Viewing one post: anybody once it is published and in the past;
      otherwise only its owner or an administrator. */
  predicate View(actor: Actor, post: Post, now: int) {
    IsPast(post.publishedAt, now) || (actor.Authenticated? && OwnsOrAdministers(actor, post))
  }

  /** Creating a post: a user whose role is editor or admin. */
  predicate Create(actor: Actor)
    requires actor.Authenticated?
  {
    actor.role == Editor || actor.role == Admin
  }

  predicate Update(actor: Actor, post: Post)
    requires actor.Authenticated?
  {
    OwnsOrAdministers(actor, post)
  }

  predicate Delete(actor: Actor, post: Post)
    requires actor.Authenticated?
  {
    OwnsOrAdministers(actor, post)
  }

  /** An ability checked through the gate, with the post it concerns. */
  datatype Ability = ViewAnyPosts | ViewPost(post: Post) | CreatePost | UpdatePost(post: Post) | DeletePost(post: Post)

  /** The gate: a rule whose user parameter is nullable (`viewAny`, `view`)
      is consulted for a guest too; the others deny a guest without being
      consulted. */
  predicate Allows(actor: Actor, ability: Ability, now: int) {
    match ability
    case ViewAnyPosts => ViewAny(actor)
    case ViewPost(p) => View(actor, p, now)
    case CreatePost => actor.Authenticated? && Create(actor)
    case UpdatePost(p) => actor.Authenticated? && Update(actor, p)
    case DeletePost(p) => actor.Authenticated? && Delete(actor, p)
  }

  lemma ViewAnyAllowsEveryone(actor: Actor, now: int)
    ensures Allows(actor, ViewAnyPosts, now)
  {
  }

  lemma PastPostVisibleToAll(actor: Actor, post: Post, now: int)
    requires post.publishedAt.Some? && post.publishedAt.value < now
    ensures Allows(actor, ViewPost(post), now)
  {
  }

  /** A draft, or a post scheduled for now or later, is visible exactly to
      its owner and to administrators; never to a guest. */
  lemma UnpublishedVisibleToOwnerOrAdmin(actor: Actor, post: Post, now: int)
    requires post.publishedAt.None? || post.publishedAt.value >= now
    ensures Allows(actor, ViewPost(post), now) <==>
              actor.Authenticated? && (actor.id == post.ownerId || actor.role == Admin)
    ensures actor.Anonymous? ==> !Allows(actor, ViewPost(post), now)
  {
  }

  lemma CreateIffSignedIn(actor: Actor, now: int)
    ensures Allows(actor, CreatePost, now) <==> actor.Authenticated? && (actor.role == Editor || actor.role == Admin)
    ensures Allows(actor, CreatePost, now) <==> actor.Authenticated?
  {
  }

  lemma UpdateIffOwnerOrAdmin(actor: Actor, post: Post, now: int)
    ensures Allows(actor, UpdatePost(post), now) <==>
              actor.Authenticated? && (actor.id == post.ownerId || actor.role == Admin)
  {
  }

  lemma DeleteAgreesWithUpdate(actor: Actor, post: Post, now: int)
    ensures Allows(actor, DeletePost(post), now) == Allows(actor, UpdatePost(post), now)
  {
  }

  lemma AdminMayDoAnything(id: nat, post: Post, now: int)
    ensures Allows(Authenticated(id, Admin), ViewPost(post), now)
    ensures Allows(Authenticated(id, Admin), UpdatePost(post), now)
    ensures Allows(Authenticated(id, Admin), DeletePost(post), now)
  {
  }

  lemma OtherEditorsMayNotChange(id: nat, post: Post, now: int)
    requires id != post.ownerId
    ensures !Allows(Authenticated(id, Editor), UpdatePost(post), now)
    ensures !Allows(Authenticated(id, Editor), DeletePost(post), now)
  {
  }

  lemma OwnerMaySeeAndChange(id: nat, role: Role, post: Post, now: int)
    requires id == post.ownerId
    ensures Allows(Authenticated(id, role), ViewPost(post), now)
    ensures Allows(Authenticated(id, role), UpdatePost(post), now)
    ensures Allows(Authenticated(id, role), DeletePost(post), now)
  {
  }

  lemma GuestMayOnlyRead(post: Post, now: int)
    ensures !Allows(Anonymous, CreatePost, now)
    ensures !Allows(Anonymous, UpdatePost(post), now)
    ensures !Allows(Anonymous, DeletePost(post), now)
  {
  }
}
