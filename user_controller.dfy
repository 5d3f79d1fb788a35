/** `GET /users`: the administrator-only list of accounts, each reduced to
    the columns it is selected with. */
module UserController {
  import opened Types

  /** The selected columns: the password hash is not among them. */
  datatype UserSummary = UserSummary(id: nat, name: string, email: string, role: Role, createdAt: int)

  function Summarize(u: User): UserSummary {
    UserSummary(u.id, u.name, u.email, u.role, u.createdAt)
  }

  /** The handler reads the requester's role without a null check, so it
      needs a signed-in requester (the route guarantees one). */
  function Index(requester: Actor, users: seq<User>): (r: Result<seq<UserSummary>, Failure>)
    requires requester.Authenticated?
    ensures r.Err? <==> requester.role != Admin
    ensures r.Err? ==> r.error == Forbidden
    ensures r.Ok? ==> |r.value| == |users|
    ensures r.Ok? ==> forall i :: 0 <= i < |users| ==>
              r.value[i].id == users[i].id && r.value[i].name == users[i].name &&
              r.value[i].email == users[i].email && r.value[i].role == users[i].role &&
              r.value[i].createdAt == users[i].createdAt
  {
    if requester.role != Admin then Err(Forbidden)
    else Ok(seq(|users|, i requires 0 <= i < |users| => Summarize(users[i])))
  }

  /** The answer never depends on any stored password hash: two user tables
      that differ only in their hashes give the same answer. */
  lemma IndexIgnoresPasswords(requester: Actor, users: seq<User>, other: seq<User>)
    requires requester.Authenticated?
    requires |users| == |other|
    requires forall i :: 0 <= i < |users| ==> other[i] == users[i].(passwordHash := other[i].passwordHash)
    ensures Index(requester, users) == Index(requester, other)
  {
    if requester.role == Admin {
      var a := Index(requester, users).value;
      var b := Index(requester, other).value;
      forall i | 0 <= i < |a| ensures a[i] == b[i] {
        assert a[i] == Summarize(users[i]) && b[i] == Summarize(other[i]);
      }
      assert a == b;
    }
  }
}
