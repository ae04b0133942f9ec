/** User records, the user store and its lookups, and the password hasher. */
module Users {
  import opened Wrappers
  import opened Seqs

  type UserId = nat

  /** A stored account. `passwordHash` is whatever the hasher produced; never the password. */
  datatype User = User(
    id: UserId,
    username: string,
    email: string,
    name: string,
    passwordHash: string,
    role: string,
    active: bool,
    createdAt: int,
    updatedAt: int)

  /** The user collection in natural order. */
  type UserStore = seq<User>

  const DefaultRole := "user"
  const AdminRole := "admin"

  /**
    The salted one-way hash behind `set_password` / `check_password`, as an opaque pair:
    `hash` produces the stored digest, `check` compares a digest with a candidate password.
  */
  datatype PasswordHasher = PasswordHasher(hash: string -> string, check: (string, string) -> bool)

  /** A digest always accepts the password it was made from. */
  ghost predicate SoundHasher(h: PasswordHasher) {
    forall p :: h.check(h.hash(p), p)
  }

  function ByEmail(email: string): User -> bool {
    (u: User) => u.email == email
  }

  function ByUsername(username: string): User -> bool {
    (u: User) => u.username == username
  }

  function ById(id: UserId): User -> bool {
    (u: User) => u.id == id
  }

  /** `User.objects(<query>).first()`: the first stored user matching `p`. */
  function FindUser(users: UserStore, p: User -> bool): (r: Option<User>)
    ensures r.Some? ==> r.value in users && p(r.value)
    ensures r.None? <==> forall i :: 0 <= i < |users| ==> !p(users[i])
  {
    match FirstIndex(users, p)
    case None => None
    case Some(i) => Some(users[i])
  }

  /** No two stored users share an id, an email or a username. */
  ghost predicate UniqueUsers(users: UserStore) {
    forall i, j :: 0 <= i < j < |users| ==>
      && users[i].id != users[j].id
      && users[i].email != users[j].email
      && users[i].username != users[j].username
  }

  /** With unique ids, a lookup by id finds exactly the stored record with that id. */
  lemma FindByIdUnique(users: UserStore, u: User)
    requires UniqueUsers(users)
    requires u in users
    ensures FindUser(users, ById(u.id)) == Some(u)
  {
    var r := FindUser(users, ById(u.id));
    var i :| 0 <= i < |users| && users[i] == u;
    assert ById(u.id)(users[i]);
    var k :| 0 <= k < |users| && users[k] == r.value;
    if k != i {
      assert users[k].id == users[i].id;
    }
  }

  /** With unique emails, a lookup by email finds exactly the stored record with that email. */
  lemma FindByEmailUnique(users: UserStore, u: User)
    requires UniqueUsers(users)
    requires u in users
    ensures FindUser(users, ByEmail(u.email)) == Some(u)
  {
    var r := FindUser(users, ByEmail(u.email));
    var i :| 0 <= i < |users| && users[i] == u;
    assert ByEmail(u.email)(users[i]);
    var k :| 0 <= k < |users| && users[k] == r.value;
    if k != i {
      assert users[k].email == users[i].email;
    }
  }
}
