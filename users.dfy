/** The user directory lookup by a list of ids. */
module Users {
  import opened Models

  /** The stored users whose id is in `ids`: `UserRow.id.in_(ids)` selects
      each matching row once, however often its id is listed. */
  function GetUsersByIds(users: map<int, User>, ids: seq<int>): (r: set<User>)
    requires UsersValid(users)
    ensures forall u | u in r :: u.id in ids && u.id in users && users[u.id] == u
    ensures forall k | k in ids && k in users :: users[k] in r
    ensures |r| <= |set k | k in ids|
  {
    ImageNoLarger(users, ids);
    set k | k in ids && k in users :: users[k]
  }

  /** Looking users up by a list of ids yields at most one user per distinct id. */
  lemma {:induction false} ImageNoLarger(users: map<int, User>, ids: seq<int>)
    ensures |set k | k in ids && k in users :: users[k]| <= |set k | k in ids|
  {
    if ids != [] {
      var init, x := ids[..|ids| - 1], ids[|ids| - 1];
      ImageNoLarger(users, init);
      assert ids == init + [x];
      var wanted, wantedInit := set k | k in ids, set k | k in init;
      var img := set k | k in ids && k in users :: users[k];
      var imgInit := set k | k in init && k in users :: users[k];
      assert wanted == wantedInit + {x};
      if x in users {
        assert img == imgInit + {users[x]};
      } else {
        assert img == imgInit;
      }
      if x in init {
        assert wanted == wantedInit;
        assert x in users ==> users[x] in imgInit;
      }
    }
  }
}
