/**
 The user store: looking a user up by name and creating the user on first
 login. The role is fixed when the user is created.
 */
module Users {
  import opened Query
  import opened Records

  datatype Lookup = Lookup(users: seq<UserModel>, user: UserModel)

  function WithName(name: string): UserModel -> bool
  {
    (u: UserModel) => u.name == name
  }

  /** `i` is the position of the first user with this name. */
  predicate FirstWithName(users: seq<UserModel>, name: string, i: int)
  {
    0 <= i < |users| && users[i].name == name && forall j :: 0 <= j < i ==> users[j].name != name
  }

  predicate UniqueNames(users: seq<UserModel>)
  {
    forall i, j :: 0 <= i < j < |users| ==> users[i].name != users[j].name
  }

  predicate UniqueUserIds(users: seq<UserModel>)
  {
    forall i, j :: 0 <= i < j < |users| ==> users[i].id != users[j].id
  }

  /**
   Return the stored user with this name, whatever role was asked for;
   otherwise insert a user with the name and role and a fresh id.
   */
  function GetOrCreateUser(users: seq<UserModel>, name: string, role: Role): (r: Lookup)
    ensures r.user.name == name
    ensures (exists i :: 0 <= i < |users| && users[i].name == name) ==>
            r.users == users && exists i :: FirstWithName(users, name, i) && r.user == users[i]
    ensures (forall i :: 0 <= i < |users| ==> users[i].name != name) ==>
            && r.users == users + [r.user]
            && r.user.role == role
            && forall i :: 0 <= i < |users| ==> users[i].id < r.user.id
  {
    match First(users, WithName(name))
    case Some(i) => Lookup(users, users[i])
    case None =>
      var user := UserModel(NextId(users, (u: UserModel) => u.id), name, role);
      Lookup(users + [user], user)
  }

  /** A second login under the same name, with any role, finds the same user and changes nothing. */
  lemma GetOrCreateUserIdempotent(users: seq<UserModel>, name: string, role: Role, role': Role)
    ensures var first := GetOrCreateUser(users, name, role);
            GetOrCreateUser(first.users, name, role') == first
  {
  }

  /** Names and ids stay unique across logins. */
  lemma GetOrCreateUserKeepsUnique(users: seq<UserModel>, name: string, role: Role)
    requires UniqueNames(users) && UniqueUserIds(users)
    ensures UniqueNames(GetOrCreateUser(users, name, role).users)
    ensures UniqueUserIds(GetOrCreateUser(users, name, role).users)
  {
  }
}
