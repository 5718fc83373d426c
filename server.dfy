/** The service's shared state, the account list `users` and the id counter
    `userIdCounter`, with the four handlers acting on it. Each handler runs
    to completion before the next one starts. */
module Service {
  import opened Accounts
  import opened Validation
  import opened Handlers

  class Server {
    /** The foreign primitives the handlers call. */
    const lib: Library
    var users: seq<User>
    var userIdCounter: int

    /** Ids run 1, 2, 3, ..., the counter is the next id, emails are unique
        and every record passed the registration rules. */
    ghost predicate Valid()
      reads this
    {
      StoreInvariant(users, userIdCounter, lib)
    }

    /** Process start: no accounts yet, the first id is 1. */
    constructor (lib: Library)
      ensures Valid()
      ensures this.lib == lib && users == [] && userIdCounter == 1
    {
      this.lib := lib;
      users := [];
      userIdCounter := 1;
    }

    /** `POST /auth/register`. On a failed rule: 400 with every failed
        check and no change. Otherwise the password is hashed with `salt`,
        the record gets the current counter as its id, the counter moves on
        by one and the record is appended; the reply carries no account data. */
    method Register(c: Candidate, salt: string) returns (r: Response)
      requires Valid()
      modifies this
      ensures Valid()
      ensures var errors := Validate(old(users), c, lib);
        errors != [] ==>
          && r == Reply(400, "Validation Error", Detail(errors))
          && users == old(users)
          && userIdCounter == old(userIdCounter)
      ensures Validate(old(users), c, lib) == [] ==>
          && r == Reply(201, "Success", NoData)
          && users == old(users) + [NewRecord(old(userIdCounter), c, lib.hash(Text(c.password), salt))]
          && userIdCounter == old(userIdCounter) + 1
    {
      var errors := Validate(users, c, lib);
      if errors != [] {
        return Reply(400, "Validation Error", Detail(errors));
      }
      var hashedPassword := lib.hash(Text(c.password), salt);
      var id := userIdCounter;
      userIdCounter := userIdCounter + 1;
      var user := NewRecord(id, c, hashedPassword);
      AppendKeepsInvariant(users, c, hashedPassword, lib);
      users := users + [user];
      r := Reply(201, "Success", NoData);
    }

    /** `POST /auth/login`; it reads the accounts and changes nothing. */
    method Login(req: LoginRequest) returns (r: Response)
      ensures r == Handlers.Login(users, req, lib)
    {
      r := Handlers.Login(users, req, lib);
    }

    /** `GET /users`. */
    method ListUsers() returns (r: Response)
      ensures r == Handlers.ListUsers(users)
    {
      r := Handlers.ListUsers(users);
    }

    /** `GET /users/:userId`. */
    method GetUser(userId: string) returns (r: Response)
      ensures r == Handlers.GetUser(users, userId)
    {
      r := Handlers.GetUser(users, userId);
    }
  }

  /** Appending the record of an accepted candidate, with the next id, keeps
      the store invariant. */
  lemma AppendKeepsInvariant(users: seq<User>, c: Candidate, digest: string, lib: Library)
    requires StoreInvariant(users, |users| + 1, lib)
    requires Validate(users, c, lib) == []
    ensures StoreInvariant(users + [NewRecord(|users| + 1, c, digest)], |users| + 2, lib)
  {
    var added := NewRecord(|users| + 1, c, digest);
    var after := users + [added];
    assert forall j :: 0 <= j < |users| ==> after[j] == users[j];
    assert after[|users|] == added;
  }
}
