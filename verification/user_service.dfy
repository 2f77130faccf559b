/**
 * The user service: each operation turns what the repository answers into
 * a response or an error. The repository is given as the answers it would
 * give to each call (the `repository.UserRepository` interface, which the
 * tests replace by a mock), and every operation reports, besides its
 * result, the repository calls it made, in order.
 */
module UserService {
  import opened Wrappers
  import opened Go
  import opened ObjectIds
  import opened Errors
  import opened Entity
  import opened Dto

  /** What each repository method answers, as a function of its arguments. */
  datatype Repository = Repository(
    getUserById: string -> Result<User>,
    getUserList: (int, int) -> Result<seq<User>>,
    saveUser: User -> Result<User>,
    getUserByEmail: string -> Result<User>,
    updateUser: User -> Result<User>,
    deleteUser: string -> Result<()>)

  datatype RepoCall =
    | GetUserByIdCall(id: string)
    | GetUserListCall(offset: int, limit: int)
    | SaveUserCall(user: User)
    | GetUserByEmailCall(email: string)
    | UpdateUserCall(user: User)
    | DeleteUserCall(id: string)

  /** The outcome of one service operation and the repository calls it made. */
  datatype Step<+T> = Step(result: Result<T>, calls: seq<RepoCall>)

  /** bcrypt refuses passwords longer than this many bytes. */
  const MaxPasswordBytes: nat := 72

  /**
   * `bcrypt.GenerateFromPassword` (with the salt it drew) and
   * `bcrypt.CompareHashAndPassword` (true when it returns no error).
   */
  datatype Hasher = Hasher(generate: string -> Result<string>, compare: (string, string) -> bool)

  /** The two facts about bcrypt the service relies on. */
  ghost predicate IsBcrypt(h: Hasher) {
    && (forall p :: h.generate(p).Ok? <==> ByteLength(p) <= MaxPasswordBytes)
    && (forall p :: h.generate(p).Fail? ==> h.generate(p).err == PasswordTooLong)
    && (forall p :: h.generate(p).Ok? ==> h.compare(h.generate(p).value, p))
  }

  /** `jwt.GenerateJwt` at the moment of the call: user id to signed token. */
  type Minter = string -> Result<string>

  function NotFound(id: string): Error {
    Message("user with id " + id + " not found")
  }

  const InvalidCredentials: Error := Message("invalid email or password")

  function AlreadyRegistered(email: string): Error {
    Message("email " + email + " is already registered")
  }

  function AlreadyExists(email: string): Error {
    Message("email " + email + " is already exists")
  }

  /** `GetUserByID`: fetch by id; a missing or zero record is "not found". */
  function GetUserByID(repo: Repository, id: string): (s: Step<GetMeResponse>)
    ensures s.calls == [GetUserByIdCall(id)]
    ensures var fetched := repo.getUserById(id);
      fetched == Fail(NoDocuments) || fetched == Ok(ZeroUser) ==> s.result == Fail(NotFound(id))
    ensures var fetched := repo.getUserById(id);
      fetched.Fail? && fetched.err != NoDocuments ==> s.result == Fail(fetched.err)
    ensures var fetched := repo.getUserById(id);
      s.result.Ok? <==> fetched.Ok? && !IsZero(fetched.value)
    ensures var fetched := repo.getUserById(id);
      s.result.Ok? ==>
        s.result.value == GetMeResponse(Hex(fetched.value.id), fetched.value.name, fetched.value.email)
  {
    var fetched := repo.getUserById(id);
    var calls := [GetUserByIdCall(id)];
    if fetched.Fail? then
      if fetched.err == NoDocuments then Step(Fail(NotFound(id)), calls)
      else Step(Fail(fetched.err), calls)
    else if IsZero(fetched.value) then Step(Fail(NotFound(id)), calls)
    else
      var user := fetched.value;
      Step(Ok(GetMeResponse(Hex(user.id), user.name, user.email)), calls)
  }

  /** The skip of `GetUserList`: `(page - 1) * limit` in Go's 64-bit `int`. */
  function Offset(req: ListRequest): (offset: Int64)
    ensures req.page >= 1 && req.limit >= 0 && (req.page - 1) * req.limit <= MaxInt64 ==>
      offset == (req.page - 1) * req.limit && offset >= 0
  {
    var product := (req.page - 1) * req.limit;
    assert req.page >= 1 && req.limit >= 0 ==> product >= 0;
    Wrap64(product)
  }

  function ItemOf(u: User): ListItem {
    ListItem(Hex(u.id), u.name, u.email)
  }

  /**
   * The response `GetUserList` builds from the users the repository listed:
   * one item per user, in order, carrying id, name and email only; the
   * slice stays nil when there are no users.
   */
  function ListResponseOf(users: seq<User>, page: Int64): (r: ListResponse)
    ensures r.page == page
    ensures r.users.None? <==> users == []
    ensures r.users.Some? ==> |r.users.value| == |users|
    ensures r.users.Some? ==> forall i :: 0 <= i < |users| ==>
      r.users.value[i] == ListItem(Hex(users[i].id), users[i].name, users[i].email)
  {
    if users == [] then ListResponse(None, page)
    else ListResponse(Some(seq(|users|, i requires 0 <= i < |users| => ItemOf(users[i]))), page)
  }

  /** Listing one more user appends its item to the slice (allocating it on the first). */
  lemma ListResponseGrows(users: seq<User>, i: nat, page: Int64)
    requires i < |users|
    ensures var before := ListResponseOf(users[..i], page).users;
      ListResponseOf(users[..i + 1], page).users ==
        Some((if before.None? then [] else before.value) + [ItemOf(users[i])])
  {
    var before := ListResponseOf(users[..i], page).users;
    var after := ListResponseOf(users[..i + 1], page).users;
    var expected := (if before.None? then [] else before.value) + [ItemOf(users[i])];
    assert before.None? <==> i == 0;
    assert after.Some? && |after.value| == |expected|;
    forall j | 0 <= j < i + 1 ensures after.value[j] == expected[j] {
      assert users[..i + 1][j] == users[j];
      if j < i {
        assert users[..i][j] == users[j];
        assert expected[j] == before.value[j];
      }
    }
    assert after.value == expected;
  }

  /** `GetUserList`: one repository call, then the append loop over its users. */
  method GetUserList(repo: Repository, req: ListRequest) returns (s: Step<ListResponse>)
    ensures s.calls == [GetUserListCall(Offset(req), req.limit)]
    ensures var listed := repo.getUserList(Offset(req), req.limit);
      listed.Fail? ==> s.result == Fail(listed.err)
    ensures var listed := repo.getUserList(Offset(req), req.limit);
      listed.Ok? ==> s.result == Ok(ListResponseOf(listed.value, req.page))
  {
    var offset := Wrap64((req.page - 1) * req.limit);
    var calls := [GetUserListCall(offset, req.limit)];
    var listed := repo.getUserList(offset, req.limit);
    if listed.Fail? {
      return Step(Fail(listed.err), calls);
    }
    var users := listed.value;
    var responses: Option<seq<ListItem>> := None;
    for i := 0 to |users|
      invariant responses == ListResponseOf(users[..i], req.page).users
    {
      var item := ListItem(Hex(users[i].id), users[i].name, users[i].email);
      ListResponseGrows(users, i, req.page);
      // `append` on a nil slice allocates one.
      var sofar := if responses.None? then [] else responses.value;
      responses := Some(sofar + [item]);
    }
    assert users[..|users|] == users;
    s := Step(Ok(ListResponse(responses, req.page)), calls);
  }

  /** The record `RegisterUser` hands to `SaveUser`. */
  function NewUser(newId: ObjectId, now: Time, req: RegisterRequest, hash: string): User {
    User(newId, req.name, req.email, hash, now, now)
  }

  /**
   * `RegisterUser`: hash, save, then mint a token whose error is ignored.
   * `newId` is the `bson.NewObjectID()` and `now` the `time.Now()` of the call.
   */
  function RegisterUser(repo: Repository, hasher: Hasher, mint: Minter, newId: ObjectId, now: Time,
                        req: RegisterRequest): (s: Step<RegisterResponse>)
    ensures var hashed := hasher.generate(req.password);
      hashed.Fail? ==> s == Step(Fail(hashed.err), [])
    ensures var hashed := hasher.generate(req.password);
      hashed.Ok? ==>
        (&& |s.calls| == 1 && s.calls[0].SaveUserCall?
         && var u := s.calls[0].user;
            u.id == newId && u.name == req.name && u.email == req.email &&
            u.password == hashed.value && u.createdAt == now && u.updatedAt == now)
    ensures |s.calls| == 1 && s.calls[0].SaveUserCall? ==> var saved := repo.saveUser(s.calls[0].user);
      && (saved.Fail? && saved.err.DuplicateKey? ==> s.result == Fail(AlreadyRegistered(req.email)))
      && (saved.Fail? && !saved.err.DuplicateKey? ==> s.result == Fail(saved.err))
      && (saved.Ok? ==> s.result.Ok?)
    ensures s.result.Ok? ==> |s.calls| == 1 && s.calls[0].SaveUserCall? && repo.saveUser(s.calls[0].user).Ok?
    ensures s.result.Ok? && |s.calls| == 1 && s.calls[0].SaveUserCall? && repo.saveUser(s.calls[0].user).Ok? ==>
      var saved := repo.saveUser(s.calls[0].user).value;
      var token := mint(Hex(saved.id));
      s.result.value == RegisterResponse(Hex(saved.id), saved.name, saved.email,
                                         if token.Ok? then token.value else "")
  {
    var hashed := hasher.generate(req.password);
    if hashed.Fail? then Step(Fail(hashed.err), [])
    else
      var user := NewUser(newId, now, req, hashed.value);
      var calls := [SaveUserCall(user)];
      var saved := repo.saveUser(user);
      if saved.Fail? then
        if saved.err.DuplicateKey? then Step(Fail(AlreadyRegistered(req.email)), calls)
        else Step(Fail(saved.err), calls)
      else
        var created := saved.value;
        var token := mint(Hex(created.id));
        var accessToken := if token.Ok? then token.value else "";
        Step(Ok(RegisterResponse(Hex(created.id), created.name, created.email, accessToken)), calls)
  }

  /** `LoginUser`: fetch by email, compare the password, mint a token. */
  function LoginUser(repo: Repository, hasher: Hasher, mint: Minter, req: LoginRequest): (s: Step<LoginResponse>)
    ensures s.calls == [GetUserByEmailCall(req.email)]
    ensures var found := repo.getUserByEmail(req.email);
      found == Fail(NoDocuments) ==> s.result == Fail(InvalidCredentials)
    ensures var found := repo.getUserByEmail(req.email);
      found.Fail? && found.err != NoDocuments ==> s.result == Fail(found.err)
    ensures var found := repo.getUserByEmail(req.email);
      found == Ok(ZeroUser) ==> s.result == Ok(EmptyLoginResponse)
    ensures var found := repo.getUserByEmail(req.email);
      found.Ok? && !IsZero(found.value) && !hasher.compare(found.value.password, req.password) ==>
        s.result == Fail(InvalidCredentials)
    ensures var found := repo.getUserByEmail(req.email);
      found.Ok? && !IsZero(found.value) && hasher.compare(found.value.password, req.password) ==>
        var user := found.value;
        var token := mint(Hex(user.id));
        s.result == if token.Ok? then Ok(LoginResponse(Hex(user.id), user.name, user.email, token.value))
                    else Fail(token.err)
  {
    var found := repo.getUserByEmail(req.email);
    var calls := [GetUserByEmailCall(req.email)];
    if found.Fail? then
      if found.err == NoDocuments then Step(Fail(InvalidCredentials), calls)
      else Step(Fail(found.err), calls)
    else if IsZero(found.value) then Step(Ok(EmptyLoginResponse), calls)
    else if !hasher.compare(found.value.password, req.password) then Step(Fail(InvalidCredentials), calls)
    else
      var user := found.value;
      var token := mint(Hex(user.id));
      if token.Fail? then Step(Fail(token.err), calls)
      else Step(Ok(LoginResponse(Hex(user.id), user.name, user.email, token.value)), calls)
  }

  /** `UpdateUser`: fetch by id, overwrite name and email of that record, save it. */
  function UpdateUser(repo: Repository, id: string, req: UpdateRequest): (s: Step<UpdateResponse>)
    ensures 1 <= |s.calls| <= 2 && s.calls[0] == GetUserByIdCall(id)
    ensures var fetched := repo.getUserById(id);
      |s.calls| == 2 <==> fetched.Ok? && !IsZero(fetched.value)
    ensures var fetched := repo.getUserById(id);
      fetched == Fail(NoDocuments) || fetched == Ok(ZeroUser) ==> s.result == Fail(NotFound(id))
    ensures var fetched := repo.getUserById(id);
      fetched.Fail? && fetched.err != NoDocuments ==> s.result == Fail(fetched.err)
    ensures |s.calls| == 2 ==> s.calls[1].UpdateUserCall?
    ensures |s.calls| == 2 && s.calls[1].UpdateUserCall? && repo.getUserById(id).Ok? ==>
      var old_ := repo.getUserById(id).value;
      var u := s.calls[1].user;
      u.name == req.name && u.email == req.email &&
      u.id == old_.id && u.password == old_.password &&
      u.createdAt == old_.createdAt && u.updatedAt == old_.updatedAt
    ensures |s.calls| == 2 && s.calls[1].UpdateUserCall? ==> var updated := repo.updateUser(s.calls[1].user);
      && (updated.Fail? && updated.err.DuplicateKey? ==> s.result == Fail(AlreadyExists(req.email)))
      && (updated.Fail? && !updated.err.DuplicateKey? ==> s.result == Fail(updated.err))
      && (updated.Ok? ==> s.result == Ok(UpdateResponse(Hex(updated.value.id), updated.value.name, updated.value.email)))
  {
    var fetched := repo.getUserById(id);
    var calls := [GetUserByIdCall(id)];
    if fetched.Fail? then
      if fetched.err == NoDocuments then Step(Fail(NotFound(id)), calls)
      else Step(Fail(fetched.err), calls)
    else if IsZero(fetched.value) then Step(Fail(NotFound(id)), calls)
    else
      var user := fetched.value.(name := req.name, email := req.email);
      var calls := calls + [UpdateUserCall(user)];
      var updated := repo.updateUser(user);
      if updated.Fail? then
        if updated.err.DuplicateKey? then Step(Fail(AlreadyExists(req.email)), calls)
        else Step(Fail(updated.err), calls)
      else
        var saved := updated.value;
        Step(Ok(UpdateResponse(Hex(saved.id), saved.name, saved.email)), calls)
  }

  /** `DeleteUser`: fetch by id, then delete by the fetched record's id; there is no zero-record check. */
  function DeleteUser(repo: Repository, id: string): (s: Step<()>)
    ensures var fetched := repo.getUserById(id);
      fetched == Fail(NoDocuments) ==> s == Step(Fail(NotFound(id)), [GetUserByIdCall(id)])
    ensures var fetched := repo.getUserById(id);
      fetched.Fail? && fetched.err != NoDocuments ==> s == Step(Fail(fetched.err), [GetUserByIdCall(id)])
    ensures var fetched := repo.getUserById(id);
      fetched.Ok? ==>
        var target := Hex(fetched.value.id);
        s == Step(repo.deleteUser(target), [GetUserByIdCall(id), DeleteUserCall(target)])
  {
    var fetched := repo.getUserById(id);
    var calls := [GetUserByIdCall(id)];
    if fetched.Fail? then
      if fetched.err == NoDocuments then Step(Fail(NotFound(id)), calls)
      else Step(Fail(fetched.err), calls)
    else
      var target := Hex(fetched.value.id);
      Step(repo.deleteUser(target), calls + [DeleteUserCall(target)])
  }

  /** An unknown email and a wrong password produce the same result. */
  lemma LoginFailuresIndistinguishable(repo1: Repository, repo2: Repository, hasher: Hasher, mint: Minter,
                                       req: LoginRequest)
    requires repo1.getUserByEmail(req.email) == Fail(NoDocuments)
    requires repo2.getUserByEmail(req.email).Ok?
    requires !IsZero(repo2.getUserByEmail(req.email).value)
    requires !hasher.compare(repo2.getUserByEmail(req.email).value.password, req.password)
    ensures LoginUser(repo1, hasher, mint, req) == LoginUser(repo2, hasher, mint, req)
  {
  }

  /**
   * With bcrypt, registration fails before any repository call exactly when
   * the password is over 72 bytes; otherwise the stored hash verifies
   * against the plaintext.
   */
  lemma RegisterHashing(repo: Repository, hasher: Hasher, mint: Minter, newId: ObjectId, now: Time,
                        req: RegisterRequest)
    requires IsBcrypt(hasher)
    ensures var s := RegisterUser(repo, hasher, mint, newId, now, req);
      s.calls == [] <==> ByteLength(req.password) > MaxPasswordBytes
    ensures var s := RegisterUser(repo, hasher, mint, newId, now, req);
      s.calls == [] ==> s.result == Fail(PasswordTooLong)
    ensures var s := RegisterUser(repo, hasher, mint, newId, now, req);
      forall i :: 0 <= i < |s.calls| ==>
        (s.calls[i].SaveUserCall? && hasher.compare(s.calls[i].user.password, req.password))
  {
    var hashed := hasher.generate(req.password);
    assert hashed.Ok? <==> ByteLength(req.password) <= MaxPasswordBytes;
  }

  /** A record read as zero still gets a delete call, for the nil id. */
  lemma DeleteZeroRecord(repo: Repository, id: string)
    requires repo.getUserById(id) == Ok(ZeroUser)
    ensures DeleteUser(repo, id).calls == [GetUserByIdCall(id), DeleteUserCall(Hex(NilObjectId))]
  {
  }
}
