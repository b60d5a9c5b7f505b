/**
 * The `users` table as the authentication routes see it: a map from the
 * primary key to the row, with the email column unique.
 */
module Users {
  import opened Passwords

  /** `User.role`'s column default. */
  const DEFAULT_ROLE: string := "GLUCOCHECK_USER"

  /** A row of `users`; `password` holds the bcrypt digest, never the password. */
  datatype User = User(
    id: int,
    firstName: string,
    lastName: string,
    email: string,
    password: PasswordHash,
    role: string)
  {
    /** The fields `login` returns about the user: no password digest, no role. */
    function Public(): PublicUser {
      PublicUser(id, email, firstName, lastName)
    }
  }

  datatype PublicUser = PublicUser(id: int, email: string, firstName: string, lastName: string)

  /**
   * The table is keyed by each row's own id, every id was handed out before
   * `nextId` (ids start at 1, as an auto-increment key does), and no two rows
   * share an email.
   */
  ghost predicate StoreInvariant(users: map<int, User>, nextId: int) {
    && 1 <= nextId
    && (forall id :: id in users ==> users[id].id == id && 1 <= id < nextId)
    && (forall a, b :: a in users && b in users && users[a].email == users[b].email ==> a == b)
  }

  /** `User.query.filter_by(email=email).first()` finds a row. */
  predicate EmailTaken(users: map<int, User>, email: string) {
    exists id :: id in users && users[id].email == email
  }

  /** Some row has this email and its digest verifies this password. */
  predicate Authenticates(users: map<int, User>, email: string, password: string) {
    exists id :: id in users && users[id].email == email && Verify(password, users[id].password)
  }

  /** With unique emails, the row an email finds is determined by the email. */
  lemma EmailFindsOneRow(users: map<int, User>, nextId: int, email: string, a: int, b: int)
    requires StoreInvariant(users, nextId)
    requires a in users && users[a].email == email
    requires b in users && users[b].email == email
    ensures a == b
  {
  }

  /** Adding a row under a fresh id with an unused email keeps the table consistent. */
  lemma InsertKeepsInvariant(users: map<int, User>, nextId: int, u: User)
    requires StoreInvariant(users, nextId)
    requires u.id == nextId && !EmailTaken(users, u.email)
    ensures nextId !in users
    ensures StoreInvariant(users[nextId := u], nextId + 1)
  {
  }

  /** Overwriting one row's password digest keeps the table consistent. */
  lemma SetPasswordKeepsInvariant(users: map<int, User>, nextId: int, id: int, h: PasswordHash)
    requires StoreInvariant(users, nextId) && id in users
    ensures StoreInvariant(users[id := users[id].(password := h)], nextId)
  {
  }
}
