/** The user table (`DataContext.Users`) and the two queries the account flow
    runs against it. */
module Users {
  import opened Crypto

  /** One row of the table: the name, the HMAC tag of the password and the
      HMAC key (the salt) it was computed with. */
  datatype AppUser = AppUser(userName: string, passwordHash: Bytes, passwordSalt: Bytes)

  /** `Users.AnyAsync(x => x.UserName == name)`. */
  function Any(users: seq<AppUser>, name: string): (b: bool)
    ensures b <==> exists i :: 0 <= i < |users| && users[i].userName == name
  {
    if users == [] then false
    else if users[0].userName == name then true
    else
      var rest := Any(users[1..], name);
      assert rest ==> exists i :: 0 <= i < |users| && users[i].userName == name by {
        if rest {
          var j :| 0 <= j < |users[1..]| && users[1..][j].userName == name;
          assert users[j + 1].userName == name;
        }
      }
      rest
  }

  /** What `SingleOrDefaultAsync(x => x.UserName == name)` can do: return the
      default (null), return the one match, or throw because there are two. */
  datatype Lookup = NotFound | Found(user: AppUser) | Ambiguous

  function SingleOrDefault(users: seq<AppUser>, name: string): (r: Lookup)
    ensures r.NotFound? <==> forall i :: 0 <= i < |users| ==> users[i].userName != name
    ensures r.Found? ==> r.user in users && r.user.userName == name
    ensures r.Ambiguous? <==>
      exists i, j :: 0 <= i < j < |users| && users[i].userName == name && users[j].userName == name
  {
    if users == [] then NotFound
    else
      var rest := SingleOrDefault(users[1..], name);
      if users[0].userName != name then
        assert forall i, j :: 0 < i < j < |users| && users[i].userName == name && users[j].userName == name ==>
          users[1..][i - 1].userName == name && users[1..][j - 1].userName == name;
        rest
      else if rest.NotFound? then Found(users[0])
      else
        var k :| 0 <= k < |users[1..]| && users[1..][k].userName == name;
        assert users[k + 1].userName == name;
        Ambiguous
  }

  /** Row `k` is the only row named `name`. */
  predicate UniqueNamed(users: seq<AppUser>, name: string, k: nat) {
    k < |users| && users[k].userName == name &&
    forall i :: 0 <= i < |users| && i != k ==> users[i].userName != name
  }

  /** The one row with a name is what the lookup finds. */
  lemma SingleOrDefaultUnique(users: seq<AppUser>, name: string, k: nat)
    requires UniqueNamed(users, name, k)
    ensures SingleOrDefault(users, name) == Found(users[k])
  {
  }

  /** Every stored name is already lower-case. */
  ghost predicate NamesLowercase(users: seq<AppUser>, toLower: string -> string) {
    forall i :: 0 <= i < |users| ==> toLower(users[i].userName) == users[i].userName
  }

  /** No two rows share a name. */
  predicate UniqueNames(users: seq<AppUser>) {
    forall i, j :: 0 <= i < j < |users| ==> users[i].userName != users[j].userName
  }

  /** Every stored hash is a full HMAC-SHA512 tag. */
  predicate FullLengthHashes(users: seq<AppUser>) {
    forall i :: 0 <= i < |users| ==> |users[i].passwordHash| == HashSize
  }

  /** The table invariant that registration keeps. */
  ghost predicate WellFormed(users: seq<AppUser>, env: Primitives) {
    NamesLowercase(users, env.toLower) && UniqueNames(users) && FullLengthHashes(users)
  }
}
