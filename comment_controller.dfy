/** `POST /posts/{post}/comments` as its handler decides it: the body is
    validated first, then the requester must be signed in; nothing is
    asked of the post beyond its existence. */
module CommentController {
  import opened Types
  import opened Validation

  const BodyRules: seq<Rule> := [Required, IsString, Max(2000)]

  /** The handler's checks, in its order: `required|string|max:2000` (422),
      then a signed-in requester (401). On success, the body to store. */
  function CheckComment(actor: Actor, body: Field): (r: Result<string, Failure>)
    ensures r == Err(Invalid({"body"})) <==> !(body.Text? && !IsBlank(body.text) && |body.text| <= 2000)
    ensures r == Err(Unauthenticated) <==>
              body.Text? && !IsBlank(body.text) && |body.text| <= 2000 && actor.Anonymous?
    ensures r.Ok? ==> actor.Authenticated? && body == Text(r.value) && |r.value| <= 2000
    ensures r.Err? ==> r.error == Invalid({"body"}) || r.error == Unauthenticated
  {
    var n := Normalize(body);
    RequiredBoundedText(n, 2000, [], NoEmailRule);
    assert [Required, IsString, Max(2000)] + [] == BodyRules;
    if !FieldPasses(n, BodyRules, NoEmailRule) then Err(Invalid({"body"}))
    else if actor.Anonymous? then Err(Unauthenticated)
    else Ok(n.text)
  }

  /** The row created for a signed-in `userId` on post `postId`. */
  function NewComment(id: nat, postId: nat, userId: nat, body: string, now: int): Comment {
    Comment(id, postId, userId, body, now)
  }

  /** Within the handler, validation comes before its own sign-in check:
      given no requester and a bad body, it answers about the body. On the
      route the token guard refuses a guest first (`Blog.Blog.StoreComment`),
      so this order is not visible from outside. */
  lemma ValidationBeforeSignIn(body: Field)
    requires !(body.Text? && !IsBlank(body.text) && |body.text| <= 2000)
    ensures CheckComment(Anonymous, body) == Err(Invalid({"body"}))
  {
  }
}
