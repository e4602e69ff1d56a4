/** The user store's read side: looking a user up by name, and login. */
module Accounts {
  import opened Seqs
  import opened Bookstore

  function Named(username: string): User -> bool
  {
    (u: User) => u.username == username
  }

  function WithCredentials(username: string, password: string): User -> bool
  {
    (u: User) => u.username == username && u.password == password
  }

  /** Position of the first user registered under `username`. */
  function FindUser(users: seq<User>, username: string): (r: Option<nat>)
    ensures r.Some? ==> r.value < |users| && users[r.value].username == username &&
                        forall j :: 0 <= j < r.value ==> users[j].username != username
    ensures r.None? <==> forall j :: 0 <= j < |users| ==> users[j].username != username
  {
    var r := Find(users, Named(username));
    assert forall j :: 0 <= j < |users| ==> (Named(username)(users[j]) <==> users[j].username == username);
    r
  }

  /** The username lookup finds a user exactly when one carries the name. */
  predicate IsRegistered(users: seq<User>, username: string): (r: bool)
    ensures r <==> exists i :: 0 <= i < |users| && users[i].username == username
  {
    FindUser(users, username).Some?
  }

  /** No two stored users share a username. */
  ghost predicate UniqueUsernames(users: seq<User>)
  {
    forall i, j :: 0 <= i < j < |users| ==> users[i].username != users[j].username
  }

  /** POST /login: succeeds exactly when a stored user has both the given name and
      the given password. An absent field compares equal to no stored string. */
  function Login(users: seq<User>, username: Option<string>, password: Option<string>): (r: Outcome)
    ensures r.Done? <==> username.Some? && password.Some? && User(username.value, password.value) in users
    ensures r.Failed? ==> r.error == InvalidCredentials
  {
    if username.None? || password.None? then Failed(InvalidCredentials)
    else
      match Find(users, WithCredentials(username.value, password.value))
      case None =>
        assert forall i :: 0 <= i < |users| ==> users[i] != User(username.value, password.value) by {
          forall i | 0 <= i < |users|
            ensures users[i] != User(username.value, password.value)
          {
            assert !WithCredentials(username.value, password.value)(users[i]);
          }
        }
        Failed(InvalidCredentials)
      case Some(i) =>
        assert users[i] == User(username.value, password.value);
        Done
  }

  /** Appending a user whose name is not yet taken keeps the usernames distinct. */
  lemma AppendKeepsUsernamesUnique(users: seq<User>, u: User)
    requires UniqueUsernames(users) && !IsRegistered(users, u.username)
    ensures UniqueUsernames(users + [u])
  {
  }

  /** A user just appended can log in with the credentials they registered. */
  lemma LoginAfterRegister(users: seq<User>, username: string, password: string)
    ensures Login(users + [User(username, password)], Some(username), Some(password)) == Done
  {
  }

  /** With distinct usernames, a registered name with any other password is refused. */
  lemma LoginRefusesWrongPassword(users: seq<User>, i: nat, password: string)
    requires UniqueUsernames(users) && i < |users| && password != users[i].password
    ensures Login(users, Some(users[i].username), Some(password)) == Failed(InvalidCredentials)
  {
  }
}
