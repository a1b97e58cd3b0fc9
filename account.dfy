/** `AccountController`: the register and login endpoints over the user
    table they were given. */
module Account {
  import opened Crypto
  import opened Users
  import opened HashComparison
  import opened AccountSpec

  class AccountController {
    /** The HMAC, UTF-8 and lower-casing library calls. */
    const env: Primitives
    /** `ITokenService.CreateToken`. */
    const createToken: AppUser -> string
    /** The rows of `DataContext.Users`. */
    var users: seq<AppUser>

    /** The library behaves as assumed and the table is as registration keeps it. */
    ghost predicate Valid()
      reads this
    {
      env.Valid() && WellFormed(users, env)
    }

    constructor (env: Primitives, createToken: AppUser -> string, users: seq<AppUser>)
      ensures this.env == env && this.createToken == createToken && this.users == users
      ensures env.Valid() && WellFormed(users, env) ==> Valid()
    {
      this.env := env;
      this.createToken := createToken;
      this.users := users;
    }

    /** Whether the lower-cased form of `username` is stored. */
    function UserExists(username: string): (b: bool)
      reads this
      ensures b <==> exists i :: 0 <= i < |users| && users[i].userName == env.toLower(username)
    {
      Any(users, env.toLower(username))
    }

    /** `key` is the key `new HMACSHA512()` generates for the new user. */
    method Register(username: string, password: string, key: Bytes) returns (r: Response)
      modifies this
      ensures Step(r, users) == RegisterStep(old(users), env, createToken, username, password, key)
      ensures old(Valid()) ==> Valid()
    {
      if UserExists(username) {
        return BadRequest(UsernameTaken);
      }
      ghost var before := users;
      var user := NewUser(env, username, password, key);
      users := users + [user];
      r := Ok(UserDto(user.userName, createToken(user)));
      if old(Valid()) {
        RegisterPreservesWellFormed(before, env, createToken, username, password, key);
      }
    }

    /** Has no `modifies` clause: whatever it answers, the table is unchanged. */
    method Login(username: string, password: string) returns (r: Response)
      ensures r == LoginResponse(users, env, createToken, username, password)
      ensures Valid() ==> !r.Thrown?
    {
      if Valid() {
        LoginNeverThrows(users, env, createToken, username, password);
      }
      var found := SingleOrDefault(users, username);
      if found.NotFound? {
        return Unauthorized(InvalidUserName);
      }
      if found.Ambiguous? {
        return Thrown(InvalidOperation);
      }
      var user := found.user;
      var computedHash := env.hmac(user.passwordSalt, env.utf8(password));
      var computedHashLength := |computedHash|;
      for i := 0 to computedHashLength
        invariant i <= |user.passwordHash|
        invariant computedHash[..i] == user.passwordHash[..i]
      {
        if i >= |user.passwordHash| {
          // `user.PasswordHash[i]` throws: the stored hash is shorter.
          return Thrown(IndexOutOfRange);
        }
        if computedHash[i] != user.passwordHash[i] {
          return Unauthorized(InvalidPassword);
        }
      }
      return Ok(UserDto(user.userName, createToken(user)));
    }
  }
}
