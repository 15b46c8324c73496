/** The user repository interface (app/interfaces/repos/user_repo.py), as
    pure lookups over one snapshot of the stored users. */
module UserRepo {
  import opened Wrappers
  import opened User

  datatype UserRepository = UserRepository(
    getByEmail: string -> Option<User>,
    getByUsername: string -> Option<User>,
    getById: int -> Option<User>,
    create: User -> User)
}

/** Password hashing and access tokens (app/infra/security.py) are library
    calls; they are left uninterpreted. */
module Security {
  import opened Wrappers

  datatype Security = Security(
    hashPassword: string -> string,
    verifyPassword: (string, string) -> bool,
    createAccessToken: Option<int> -> string,
    verifyToken: string -> Option<int>)
}
