/** Resolving a user id to the (id, role) pair a login token is signed with. */
module Login {
  import opened Models
  import Users

  /** The two-element list `[id, role]` of a found user. */
  datatype Identity = Identity(id: int, role: string)

  /** The stored user's id and role, or NotFound for an unknown uid. */
  function UserLogin(users: map<int, User>, uid: int): (r: Result<Identity>)
    requires UsersValid(users)
    ensures r.Ok? <==> uid in users
    ensures r.Ok? ==> r.value.id == uid && r.value.role == users[uid].role
    ensures r.Err? ==> r.error == NotFound
  {
    if uid in users then Ok(Identity(users[uid].id, users[uid].role)) else Err(NotFound)
  }

  /** Login succeeds exactly when the directory lookup of that one id finds a
      user, and it reports that user's role. */
  lemma LoginAgreesWithLookup(users: map<int, User>, uid: int)
    requires UsersValid(users)
    ensures UserLogin(users, uid).Ok? <==> Users.GetUsersByIds(users, [uid]) != {}
    ensures UserLogin(users, uid).Ok? ==>
              Users.GetUsersByIds(users, [uid]) == {User(uid, users[uid].email, UserLogin(users, uid).value.role)}
  {
    var found := Users.GetUsersByIds(users, [uid]);
    if uid in users {
      assert users[uid] in found;
      forall u | u in found ensures u == users[uid] {
      }
    }
  }
}
