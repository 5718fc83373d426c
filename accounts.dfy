/** The account records the service keeps, the foreign primitives it calls,
    the request and response shapes of its handlers, and lookups over the
    account list. */
module Accounts {
  import opened Builtins

  /** A stored account. `password` holds the bcrypt digest, never the plaintext. */
  datatype User = User(
    id: int,
    fullName: string,
    email: string,
    password: string,
    bio: Option<string>,
    dob: Option<string>)

  /** The claims signed into a login token: `{ id, email }`. */
  datatype Claims = Claims(id: int, email: string)

  /** The body of a registration request; a missing key is `None`. */
  datatype Candidate = Candidate(
    fullName: Option<string>,
    email: Option<string>,
    password: Option<string>,
    bio: Option<string>,
    dob: Option<string>)

  /** The body of a login request; a missing key is `None`. */
  datatype LoginRequest = LoginRequest(email: Option<string>, password: Option<string>)

  /** One entry of the validation error detail: the field and the message of a failed check. */
  datatype FieldError = FieldError(field: string, message: string)

  /** The data part of a JSON reply. */
  datatype Payload =
    | NoData
    | Detail(errors: seq<FieldError>)
    | TokenData(token: string)
    | UserList(users: seq<User>)
    | OneUser(user: User)

  /** What a handler produces: a status code with a JSON body, or `Fault`
      when the handler's promise rejects and no reply is written. */
  datatype Response = Reply(status: int, message: string, data: Payload) | Fault

  /** The foreign primitives, left uninterpreted: bcrypt's `hash` (salted,
      with the salt an explicit argument) and `compare`, jsonwebtoken's `sign`,
      and validator.js's `isEmail` and `isDate`. */
  datatype Library = Library(
    hash: (string, string) -> string,
    compare: (string, string) -> bool,
    sign: (Claims, string) -> string,
    isEmail: string -> bool,
    isDate: string -> bool)

  /** The one property of bcrypt the model relies on: a password always
      matches a digest made from it, whatever the salt. */
  ghost predicate Sound(lib: Library) {
    forall p, salt :: lib.compare(p, lib.hash(p, salt))
  }

  /** The string express-validator's standard validators see for a field:
      a missing field reads as the empty string. */
  function Text(field: Option<string>): string {
    match field
    case None => ""
    case Some(s) => s
  }

  /** `users.find(user => user.email === email)`. */
  function IndexOfEmail(users: seq<User>, email: string): (r: Option<nat>)
    ensures r.Some? ==> r.value < |users| && users[r.value].email == email
    ensures r.Some? ==> forall j :: 0 <= j < r.value ==> users[j].email != email
    ensures r.None? <==> forall j :: 0 <= j < |users| ==> users[j].email != email
  {
    FindFirst(users, (u: User) => u.email == email)
  }

  /** `users.find(user => user.id === id)`. */
  function IndexOfId(users: seq<User>, id: int): (r: Option<nat>)
    ensures r.Some? ==> r.value < |users| && users[r.value].id == id
    ensures r.Some? ==> forall j :: 0 <= j < r.value ==> users[j].id != id
    ensures r.None? <==> forall j :: 0 <= j < |users| ==> users[j].id != id
  {
    FindFirst(users, (u: User) => u.id == id)
  }

  /** The email uniqueness check of the registration rules. */
  predicate EmailTaken(users: seq<User>, email: string) {
    IndexOfEmail(users, email).Some?
  }

  /** Ids are 1, 2, 3, ... in insertion order. */
  ghost predicate IdsSequential(users: seq<User>) {
    forall i :: 0 <= i < |users| ==> users[i].id == i + 1
  }

  /** No two stored accounts share an email. */
  ghost predicate EmailsUnique(users: seq<User>) {
    forall i, j :: 0 <= i < j < |users| ==> users[i].email != users[j].email
  }

  /** What every stored record satisfies: the fields the rules constrain passed them. */
  ghost predicate RecordsValid(users: seq<User>, lib: Library) {
    forall i :: 0 <= i < |users| ==>
      && users[i].fullName != ""
      && users[i].email != ""
      && lib.isEmail(users[i].email)
      && (users[i].dob.Some? ==> lib.isDate(users[i].dob.value))
  }

  /** The invariant of the shared state `users` / `userIdCounter`. */
  ghost predicate StoreInvariant(users: seq<User>, counter: int, lib: Library) {
    && IdsSequential(users)
    && counter == |users| + 1
    && EmailsUnique(users)
    && RecordsValid(users, lib)
  }
}
