/**
 * The service running against the repository's table semantics: what one
 * operation leaves in the collection and what later operations then see.
 * Every service operation reads first and writes at most once, as its last
 * call, so answering all of its calls from the table as it was when the
 * operation began is exact.
 */
module UserFlows {
  import opened Go
  import opened ObjectIds
  import opened Errors
  import opened Entity
  import opened Dto
  import opened UserRepository
  import opened UserService
  import opened Jwt
  import opened JwtMiddleware

  /**
   * `repo` answers every call from the table `users`, as `UserStore` does:
   * `now` is the time an update writes and `freshId` the id the driver would
   * give a document without one.
   */
  ghost predicate Serves(repo: Repository, users: seq<User>, now: Time, freshId: ObjectId) {
    && (forall id :: repo.getUserById(id) == LookupById(users, id))
    && (forall offset, limit :: repo.getUserList(offset, limit) == Page(users, offset, limit))
    && (forall u :: repo.saveUser(u) == Insert(users, u, freshId).reply)
    && (forall email :: repo.getUserByEmail(email) == LookupByEmail(users, email))
    && (forall u :: repo.updateUser(u) == Overwrite(users, u, now).reply)
    && (forall id :: repo.deleteUser(id) == Remove(users, id).reply)
  }

  /** The repository over the table `users`. */
  function StoreRepository(users: seq<User>, now: Time, freshId: ObjectId): Repository {
    Repository(
      (id: string) => LookupById(users, id),
      (offset: int, limit: int) => Page(users, offset, limit),
      (u: User) => Insert(users, u, freshId).reply,
      (email: string) => LookupByEmail(users, email),
      (u: User) => Overwrite(users, u, now).reply,
      (id: string) => Remove(users, id).reply)
  }

  /** `StoreRepository` serves its table, so no flow below is about an empty set of repositories. */
  lemma StoreRepositoryServes(users: seq<User>, now: Time, freshId: ObjectId)
    ensures Serves(StoreRepository(users, now, freshId), users, now, freshId)
  {
    var repo := StoreRepository(users, now, freshId);
    forall id ensures repo.getUserById(id) == LookupById(users, id) {}
    forall offset, limit ensures repo.getUserList(offset, limit) == Page(users, offset, limit) {}
    forall u ensures repo.saveUser(u) == Insert(users, u, freshId).reply {}
    forall email ensures repo.getUserByEmail(email) == LookupByEmail(users, email) {}
    forall u ensures repo.updateUser(u) == Overwrite(users, u, now).reply {}
    forall id ensures repo.deleteUser(id) == Remove(users, id).reply {}
  }

  predicate IsWrite(c: RepoCall) {
    c.SaveUserCall? || c.UpdateUserCall? || c.DeleteUserCall?
  }

  /** The calls of one operation: reads, then at most one write, at the end. */
  predicate WritesLast(calls: seq<RepoCall>) {
    forall i :: 0 <= i < |calls| - 1 ==> !IsWrite(calls[i])
  }

  /** `GetUserByID` and `LoginUser` only read. */
  lemma ReadOperationsOnlyRead(repo: Repository, hasher: Hasher, mint: Minter, id: string, login: LoginRequest)
    ensures forall c :: c in GetUserByID(repo, id).calls ==> !IsWrite(c)
    ensures forall c :: c in LoginUser(repo, hasher, mint, login).calls ==> !IsWrite(c)
  {
  }

  /** Each writing service operation reads first and writes at most once, last. */
  lemma ServiceWritesLast(repo: Repository, hasher: Hasher, mint: Minter, newId: ObjectId, now: Time,
                          id: string, register: RegisterRequest, update: UpdateRequest)
    ensures WritesLast(RegisterUser(repo, hasher, mint, newId, now, register).calls)
    ensures WritesLast(UpdateUser(repo, id, update).calls)
    ensures WritesLast(DeleteUser(repo, id).calls)
  {
    var registered := RegisterUser(repo, hasher, mint, newId, now, register).calls;
    assert |registered| <= 1;
    var updated := UpdateUser(repo, id, update).calls;
    assert |updated| <= 2 && updated[0] == GetUserByIdCall(id);
    var deleted := DeleteUser(repo, id).calls;
    assert |deleted| <= 2 && deleted[0] == GetUserByIdCall(id);
  }

  /** The table after one call: a write changes it, a read does not. */
  function Apply(users: seq<User>, c: RepoCall, now: Time, freshId: ObjectId): seq<User> {
    match c
    case SaveUserCall(u) => Insert(users, u, freshId).users
    case UpdateUserCall(u) => Overwrite(users, u, now).users
    case DeleteUserCall(id) => Remove(users, id).users
    case _ => users
  }

  /** The table after the writes among `calls`, applied in order. */
  function Commit(users: seq<User>, calls: seq<RepoCall>, now: Time, freshId: ObjectId): seq<User>
    decreases |calls|
  {
    if calls == [] then users else Commit(Apply(users, calls[0], now, freshId), calls[1..], now, freshId)
  }

  /** No sequence of writes breaks the unique indexes. */
  lemma {:induction false} CommitConsistent(users: seq<User>, calls: seq<RepoCall>, now: Time, freshId: ObjectId)
    requires Consistent(users)
    ensures Consistent(Commit(users, calls, now, freshId))
    decreases |calls|
  {
    if calls != [] {
      var next := Apply(users, calls[0], now, freshId);
      assert Consistent(next) by {
        match calls[0]
        case SaveUserCall(u) => InsertConsistent(users, u, freshId);
        case UpdateUserCall(u) => OverwriteConsistent(users, u, now);
        case DeleteUserCall(id) => RemoveConsistent(users, id);
        case _ =>
      }
      CommitConsistent(next, calls[1..], now, freshId);
    }
  }

  /** When the only write is the last call, the table ends as that write alone leaves it. */
  lemma {:induction false} CommitLastWrite(users: seq<User>, calls: seq<RepoCall>, now: Time, freshId: ObjectId)
    requires calls != [] && WritesLast(calls)
    ensures Commit(users, calls, now, freshId) == Apply(users, calls[|calls| - 1], now, freshId)
    decreases |calls|
  {
    if |calls| > 1 {
      assert !IsWrite(calls[0]);
      assert Apply(users, calls[0], now, freshId) == users;
      CommitLastWrite(users, calls[1..], now, freshId);
    }
  }

  /*
   * The call lists the service produces, committed: a lookup alone leaves
   * the table as it is, and a lookup then a write leaves what the write leaves.
   */

  lemma CommitLookup(users: seq<User>, calls: seq<RepoCall>, now: Time, freshId: ObjectId, id: string)
    requires calls == [GetUserByIdCall(id)]
    ensures Commit(users, calls, now, freshId) == users
  {
  }

  lemma CommitSave(users: seq<User>, calls: seq<RepoCall>, now: Time, freshId: ObjectId, u: User)
    requires calls == [SaveUserCall(u)]
    ensures Commit(users, calls, now, freshId) == Insert(users, u, freshId).users
  {
  }

  lemma CommitUpdate(users: seq<User>, calls: seq<RepoCall>, now: Time, freshId: ObjectId, id: string, u: User)
    requires calls == [GetUserByIdCall(id), UpdateUserCall(u)]
    ensures Commit(users, calls, now, freshId) == Overwrite(users, u, now).users
  {
    var w := UpdateUserCall(u);
    assert calls[0] == GetUserByIdCall(id) && calls[1..] == [w];
    assert Apply(users, calls[0], now, freshId) == users;
    assert Commit(users, calls, now, freshId) == Commit(users, [w], now, freshId);
    assert [w][0] == w && [w][1..] == [];
    assert Commit(users, [w], now, freshId) == Commit(Apply(users, w, now, freshId), [], now, freshId);
    assert Apply(users, w, now, freshId) == Overwrite(users, u, now).users;
  }

  lemma CommitDelete(users: seq<User>, calls: seq<RepoCall>, now: Time, freshId: ObjectId, id: string, target: string)
    requires calls == [GetUserByIdCall(id), DeleteUserCall(target)]
    ensures Commit(users, calls, now, freshId) == Remove(users, target).users
  {
    var w := DeleteUserCall(target);
    assert calls[0] == GetUserByIdCall(id) && calls[1..] == [w];
    assert Apply(users, calls[0], now, freshId) == users;
    assert Commit(users, calls, now, freshId) == Commit(users, [w], now, freshId);
    assert [w][0] == w && [w][1..] == [];
    assert Commit(users, [w], now, freshId) == Commit(Apply(users, w, now, freshId), [], now, freshId);
    assert Apply(users, w, now, freshId) == Remove(users, target).users;
  }

  /*
   * The next five lemmas pin down one path of each operation against any
   * repository; the flows below use them with a repository serving a table.
   */

  lemma GetFound(repo: Repository, id: string, u: User)
    requires repo.getUserById(id) == Ok(u) && !IsZero(u)
    ensures GetUserByID(repo, id).result == Ok(GetMeResponse(Hex(u.id), u.name, u.email))
  {
  }

  lemma RegisterHashed(repo: Repository, hasher: Hasher, mint: Minter, newId: ObjectId, now: Time,
                       req: RegisterRequest)
    requires hasher.generate(req.password).Ok?
    ensures var u := NewUser(newId, now, req, hasher.generate(req.password).value);
      var s := RegisterUser(repo, hasher, mint, newId, now, req);
      && s.calls == [SaveUserCall(u)]
      && (repo.saveUser(u).Ok? ==>
            (s.result.Ok? && s.result.value.id == Hex(repo.saveUser(u).value.id) &&
             s.result.value.name == repo.saveUser(u).value.name && s.result.value.email == repo.saveUser(u).value.email))
      && (repo.saveUser(u).Fail? && repo.saveUser(u).err.DuplicateKey? ==> s.result == Fail(AlreadyRegistered(req.email)))
  {
  }

  lemma LoginFound(repo: Repository, hasher: Hasher, mint: Minter, req: LoginRequest, u: User)
    requires repo.getUserByEmail(req.email) == Ok(u) && !IsZero(u)
    requires hasher.compare(u.password, req.password) && mint(Hex(u.id)).Ok?
    ensures LoginUser(repo, hasher, mint, req).result ==
      Ok(LoginResponse(Hex(u.id), u.name, u.email, mint(Hex(u.id)).value))
  {
  }

  lemma UpdateFound(repo: Repository, id: string, u: User, req: UpdateRequest)
    requires repo.getUserById(id) == Ok(u) && !IsZero(u)
    ensures var edited := u.(name := req.name, email := req.email);
      var s := UpdateUser(repo, id, req);
      && s.calls == [GetUserByIdCall(id), UpdateUserCall(edited)]
      && (repo.updateUser(edited).Ok? ==>
            (var v := repo.updateUser(edited).value; s.result == Ok(UpdateResponse(Hex(v.id), v.name, v.email))))
      && (repo.updateUser(edited).Fail? && repo.updateUser(edited).err.DuplicateKey? ==>
            s.result == Fail(AlreadyExists(req.email)))
  {
  }

  lemma DeleteFound(repo: Repository, id: string, u: User)
    requires repo.getUserById(id) == Ok(u)
    ensures var s := DeleteUser(repo, id);
      s.calls == [GetUserByIdCall(id), DeleteUserCall(Hex(u.id))] && s.result == repo.deleteUser(Hex(u.id))
  {
  }

  /** The record `RegisterUser` stores for a request, as the collection keeps it. */
  function Registered(newId: ObjectId, now: Time, req: RegisterRequest, hash: string, freshId: ObjectId): User {
    Document(NewUser(newId, now, req, hash), freshId)
  }

  /*
   * The next three lemmas run one operation against a table, in terms of the
   * table functions; the flows below add what the table then holds.
   */

  /** A registration whose password hashes is one insert of the new record. */
  lemma StoreRegister(repo: Repository, users: seq<User>, hasher: Hasher, mint: Minter, newId: ObjectId, now: Time,
                      freshId: ObjectId, req: RegisterRequest)
    requires Serves(repo, users, now, freshId)
    requires hasher.generate(req.password).Ok?
    ensures var u := NewUser(newId, now, req, hasher.generate(req.password).value);
      var s := RegisterUser(repo, hasher, mint, newId, now, req);
      && s.calls == [SaveUserCall(u)]
      && Commit(users, s.calls, now, freshId) == Insert(users, u, freshId).users
      && (Insert(users, u, freshId).reply.Ok? ==>
            (s.result.Ok? && s.result.value.id == Hex(newId) &&
             s.result.value.name == req.name && s.result.value.email == req.email))
      && (Insert(users, u, freshId).reply.Fail? ==> s.result == Fail(AlreadyRegistered(req.email)))
  {
    var u := NewUser(newId, now, req, hasher.generate(req.password).value);
    var s := RegisterUser(repo, hasher, mint, newId, now, req);
    RegisterHashed(repo, hasher, mint, newId, now, req);
    CommitSave(users, s.calls, now, freshId, u);
  }

  /** Deleting by the id of a record the lookup finds is one delete by that record's id. */
  lemma StoreDelete(repo: Repository, users: seq<User>, now: Time, freshId: ObjectId, id: string, v: User)
    requires Serves(repo, users, now, freshId)
    requires LookupById(users, id) == Ok(v)
    ensures var s := DeleteUser(repo, id);
      && s.calls == [GetUserByIdCall(id), DeleteUserCall(Hex(v.id))]
      && s.result == Remove(users, Hex(v.id)).reply
      && Commit(users, s.calls, now, freshId) == Remove(users, Hex(v.id)).users
  {
    var s := DeleteUser(repo, id);
    DeleteFound(repo, id, v);
    CommitDelete(users, s.calls, now, freshId, id, Hex(v.id));
  }

  /** Updating by the id of a non-zero record the lookup finds is one overwrite of it with the new name and email. */
  lemma StoreUpdate(repo: Repository, users: seq<User>, now: Time, freshId: ObjectId, id: string, v: User,
                    req: UpdateRequest)
    requires Serves(repo, users, now, freshId)
    requires LookupById(users, id) == Ok(v) && !IsZero(v)
    ensures var edited := v.(name := req.name, email := req.email);
      var s := UpdateUser(repo, id, req);
      && s.calls == [GetUserByIdCall(id), UpdateUserCall(edited)]
      && Commit(users, s.calls, now, freshId) == Overwrite(users, edited, now).users
      && (Overwrite(users, edited, now).reply.Ok? ==> s.result == Ok(UpdateResponse(Hex(v.id), req.name, req.email)))
      && (Overwrite(users, edited, now).reply.Fail? ==> s.result == Fail(AlreadyExists(req.email)))
  {
    var s := UpdateUser(repo, id, req);
    UpdateFound(repo, id, v, req);
    CommitUpdate(users, s.calls, now, freshId, id, v.(name := req.name, email := req.email));
  }

  /**
   * Registering a new email succeeds with the new id, the request's name and
   * email, and appends exactly the new record, keeping the table consistent.
   */
  lemma RegisterNew(repo: Repository, users: seq<User>, hasher: Hasher, mint: Minter, newId: ObjectId, now: Time,
                    freshId: ObjectId, req: RegisterRequest)
    requires Serves(repo, users, now, freshId) && Consistent(users) && IsBcrypt(hasher)
    requires ByteLength(req.password) <= MaxPasswordBytes
    requires newId != NilObjectId && !HasId(users, newId) && !HasEmail(users, req.email)
    ensures var s := RegisterUser(repo, hasher, mint, newId, now, req);
      && s.result.Ok? && s.result.value.id == Hex(newId)
      && s.result.value.name == req.name && s.result.value.email == req.email
      && Commit(users, s.calls, now, freshId) ==
           users + [Registered(newId, now, req, hasher.generate(req.password).value, freshId)]
      && Consistent(Commit(users, s.calls, now, freshId))
  {
    var u := NewUser(newId, now, req, hasher.generate(req.password).value);
    assert Document(u, freshId).id == newId;
    InsertConsistent(users, u, freshId);
    StoreRegister(repo, users, hasher, mint, newId, now, freshId, req);
  }

  /** A stored record that is not the zero record is returned by `GetUserByID` on its id. */
  lemma GetStored(repo: Repository, users: seq<User>, now: Time, freshId: ObjectId, k: nat)
    requires Serves(repo, users, now, freshId)
    requires Consistent(users) && k < |users| && !IsZero(users[k])
    ensures GetUserByID(repo, Hex(users[k].id)).result ==
      Ok(GetMeResponse(Hex(users[k].id), users[k].name, users[k].email))
  {
    LookupByIdFinds(users, k);
    GetFound(repo, Hex(users[k].id), users[k]);
  }

  /**
   * After registering a new email, `GetUserByID` on the new id, against the
   * table the registration left, returns the registered name and email.
   */
  lemma RegisterThenGet(repo: Repository, next: Repository, users: seq<User>, hasher: Hasher, mint: Minter,
                        newId: ObjectId, now: Time, freshId: ObjectId, req: RegisterRequest, later: Time)
    requires Serves(repo, users, now, freshId) && Consistent(users) && IsBcrypt(hasher)
    requires ByteLength(req.password) <= MaxPasswordBytes
    requires newId != NilObjectId && !HasId(users, newId) && !HasEmail(users, req.email)
    requires Serves(next, Commit(users, RegisterUser(repo, hasher, mint, newId, now, req).calls, now, freshId),
                    later, freshId)
    ensures GetUserByID(next, Hex(newId)).result == Ok(GetMeResponse(Hex(newId), req.name, req.email))
  {
    RegisterNew(repo, users, hasher, mint, newId, now, freshId, req);
    var d := Registered(newId, now, req, hasher.generate(req.password).value, freshId);
    var after := users + [d];
    assert after[|users|] == d;
    GetStored(next, after, later, freshId, |users|);
  }

  /** Registering an email that is already stored fails with a conflict and stores nothing. */
  lemma RegisterTaken(repo: Repository, users: seq<User>, hasher: Hasher, mint: Minter, newId: ObjectId, now: Time,
                      freshId: ObjectId, req: RegisterRequest)
    requires Serves(repo, users, now, freshId)
    requires IsBcrypt(hasher) && ByteLength(req.password) <= MaxPasswordBytes
    requires HasEmail(users, req.email)
    ensures var s := RegisterUser(repo, hasher, mint, newId, now, req);
      s.result == Fail(AlreadyRegistered(req.email)) && Commit(users, s.calls, now, freshId) == users
  {
    var u := NewUser(newId, now, req, hasher.generate(req.password).value);
    assert Insert(users, u, freshId).reply.Fail?;
    StoreRegister(repo, users, hasher, mint, newId, now, freshId, req);
  }

  /** A password over 72 bytes is refused before anything is stored. */
  lemma RegisterTooLong(repo: Repository, users: seq<User>, hasher: Hasher, mint: Minter, newId: ObjectId,
                        now: Time, freshId: ObjectId, req: RegisterRequest)
    requires IsBcrypt(hasher) && ByteLength(req.password) > MaxPasswordBytes
    ensures var s := RegisterUser(repo, hasher, mint, newId, now, req);
      s.result == Fail(PasswordTooLong) && Commit(users, s.calls, now, freshId) == users
  {
  }

  /** Logging in as a stored, non-zero user with the password its hash was made from succeeds with a token for its id. */
  lemma LoginStored(repo: Repository, users: seq<User>, hasher: Hasher, mint: Minter, now: Time, freshId: ObjectId,
                    k: nat, password: string)
    requires Serves(repo, users, now, freshId)
    requires Consistent(users) && k < |users| && !IsZero(users[k])
    requires hasher.compare(users[k].password, password)
    requires mint(Hex(users[k].id)).Ok?
    ensures LoginUser(repo, hasher, mint, LoginRequest(users[k].email, password)).result ==
      Ok(LoginResponse(Hex(users[k].id), users[k].name, users[k].email, mint(Hex(users[k].id)).value))
  {
    LookupByEmailFinds(users, k);
    LoginFound(repo, hasher, mint, LoginRequest(users[k].email, password), users[k]);
  }

  /** After a registration, logging in with the same email and password succeeds with a token for the new id. */
  lemma RegisterThenLogin(repo: Repository, next: Repository, users: seq<User>, hasher: Hasher, mint: Minter,
                          newId: ObjectId, now: Time, freshId: ObjectId, req: RegisterRequest, later: Time)
    requires Serves(repo, users, now, freshId) && Consistent(users) && IsBcrypt(hasher)
    requires ByteLength(req.password) <= MaxPasswordBytes
    requires newId != NilObjectId && !HasId(users, newId) && !HasEmail(users, req.email)
    requires mint(Hex(newId)).Ok?
    requires Serves(next, Commit(users, RegisterUser(repo, hasher, mint, newId, now, req).calls, now, freshId),
                    later, freshId)
    ensures LoginUser(next, hasher, mint, LoginRequest(req.email, req.password)).result ==
      Ok(LoginResponse(Hex(newId), req.name, req.email, mint(Hex(newId)).value))
  {
    RegisterNew(repo, users, hasher, mint, newId, now, freshId, req);
    var d := Registered(newId, now, req, hasher.generate(req.password).value, freshId);
    var after := users + [d];
    assert after[|users|] == d;
    LoginStored(next, after, hasher, mint, later, freshId, |users|, req.password);
  }

  /**
   * A whole session: register, log in with the same email and password
   * while tokens are minted by `GenerateJwt` at time `t`, and send the token
   * as a bearer header while both clock reads of the validation fall before
   * it expires; the guard lets the request through with the new id.
   */
  lemma RegisterLoginSession(repo: Repository, next: Repository, users: seq<User>, hasher: Hasher, mint: Minter,
                             cfg: Config, signer: Signer, newId: ObjectId, t: Time, freshId: ObjectId,
                             req: RegisterRequest, parsedAt: Time, now: Time)
    requires Serves(repo, users, t, freshId) && Consistent(users) && IsBcrypt(hasher) && IsSigner(signer)
    requires forall id :: mint(id) == GenerateJwt(cfg, signer, t, id)
    requires ByteLength(req.password) <= MaxPasswordBytes
    requires newId != NilObjectId && !HasId(users, newId) && !HasEmail(users, req.email)
    requires GenerateJwt(cfg, signer, t, Hex(newId)).Ok?
    requires t <= parsedAt < NewClaims(cfg, t, Hex(newId)).expiresAt.value
    requires t <= now <= NewClaims(cfg, t, Hex(newId)).expiresAt.value
    requires Serves(next, Commit(users, RegisterUser(repo, hasher, mint, newId, t, req).calls, t, freshId),
                    t, freshId)
    ensures var login := LoginUser(next, hasher, mint, LoginRequest(req.email, req.password));
      && login.result.Ok?
      && Guard(BearerPrefix + login.result.value.accessToken, (tok: string) => ValidateJwt(cfg, signer, parsedAt, now, tok)) ==
           Proceed(Hex(newId))
      && StrictGuard(BearerPrefix + login.result.value.accessToken, (tok: string) => ValidateJwt(cfg, signer, parsedAt, now, tok)) ==
           Proceed(Hex(newId))
  {
    RegisterThenLogin(repo, next, users, hasher, mint, newId, t, freshId, req, t);
    IssuedTokenProceeds(cfg, signer, t, parsedAt, now, Hex(newId));
  }

  /** Updating an id that parses but is not stored answers "not found" and writes nothing. */
  lemma UpdateMissing(repo: Repository, users: seq<User>, now: Time, freshId: ObjectId, id: string, req: UpdateRequest)
    requires Serves(repo, users, now, freshId)
    requires ObjectIdFromHex(id).Parsed? && !HasId(users, ObjectIdFromHex(id).id)
    ensures var s := UpdateUser(repo, id, req);
      s.result == Fail(NotFound(id)) && Commit(users, s.calls, now, freshId) == users
  {
    CommitLookup(users, UpdateUser(repo, id, req).calls, now, freshId, id);
  }

  /** Deleting an id that parses but is not stored answers "not found" and writes nothing. */
  lemma DeleteMissing(repo: Repository, users: seq<User>, now: Time, freshId: ObjectId, id: string)
    requires Serves(repo, users, now, freshId)
    requires ObjectIdFromHex(id).Parsed? && !HasId(users, ObjectIdFromHex(id).id)
    ensures var s := DeleteUser(repo, id);
      s.result == Fail(NotFound(id)) && Commit(users, s.calls, now, freshId) == users
  {
    CommitLookup(users, DeleteUser(repo, id).calls, now, freshId, id);
  }

  /** An id that is not 24 hexadecimal digits is refused by update with the format error, writing nothing. */
  lemma UpdateMalformedId(repo: Repository, users: seq<User>, now: Time, freshId: ObjectId, id: string,
                          req: UpdateRequest)
    requires Serves(repo, users, now, freshId)
    requires ObjectIdFromHex(id).Invalid?
    ensures var s := UpdateUser(repo, id, req);
      s.result == Fail(InvalidIdFormat(ObjectIdFromHex(id).cause)) && Commit(users, s.calls, now, freshId) == users
  {
    CommitLookup(users, UpdateUser(repo, id, req).calls, now, freshId, id);
  }

  /** An id that is not 24 hexadecimal digits is refused by delete with the format error, writing nothing. */
  lemma DeleteMalformedId(repo: Repository, users: seq<User>, now: Time, freshId: ObjectId, id: string)
    requires Serves(repo, users, now, freshId)
    requires ObjectIdFromHex(id).Invalid?
    ensures var s := DeleteUser(repo, id);
      s.result == Fail(InvalidIdFormat(ObjectIdFromHex(id).cause)) && Commit(users, s.calls, now, freshId) == users
  {
    CommitLookup(users, DeleteUser(repo, id).calls, now, freshId, id);
  }

  /** Deleting a stored user succeeds and leaves the table `Remove` leaves. */
  lemma DeleteStored(repo: Repository, users: seq<User>, now: Time, freshId: ObjectId, k: nat)
    requires Serves(repo, users, now, freshId)
    requires Consistent(users) && k < |users|
    ensures var s := DeleteUser(repo, Hex(users[k].id));
      && s.result == Ok(())
      && Commit(users, s.calls, now, freshId) == Remove(users, Hex(users[k].id)).users
  {
    var id := Hex(users[k].id);
    LookupByIdFinds(users, k);
    HexRoundTrip(users[k].id);
    assert Remove(users, id).reply == Ok(());
    StoreDelete(repo, users, now, freshId, id, users[k]);
  }

  /**
   * After deleting a stored user, exactly the records with other ids remain,
   * and `GetUserByID` on its id, against that table, answers "not found".
   */
  lemma DeleteThenGet(repo: Repository, next: Repository, users: seq<User>, now: Time, freshId: ObjectId, k: nat,
                      later: Time)
    requires Serves(repo, users, now, freshId)
    requires Consistent(users) && k < |users|
    requires Serves(next, Commit(users, DeleteUser(repo, Hex(users[k].id)).calls, now, freshId), later, freshId)
    ensures var after := Commit(users, DeleteUser(repo, Hex(users[k].id)).calls, now, freshId);
      && (forall v :: v in after <==> v in users && v.id != users[k].id)
      && GetUserByID(next, Hex(users[k].id)).result == Fail(NotFound(Hex(users[k].id)))
  {
    var id := Hex(users[k].id);
    DeleteStored(repo, users, now, freshId, k);
    HexRoundTrip(users[k].id);
    var after := Remove(users, id).users;
    RemoveConsistent(users, id);
    assert !HasId(after, users[k].id) by {
      forall j | 0 <= j < |after| ensures after[j].id != users[k].id {
        assert after[j] in after;
      }
    }
    assert LookupById(after, id) == Fail(NoDocuments);
  }

  /** The user `UpdateUser` writes back for stored record `k`. */
  function Edited(users: seq<User>, k: nat, req: UpdateRequest): User
    requires k < |users|
  {
    users[k].(name := req.name, email := req.email)
  }

  /** Updating a stored, non-zero user reads it and then writes back the record with the new name and email. */
  lemma UpdateStoredCalls(repo: Repository, users: seq<User>, now: Time, freshId: ObjectId, k: nat, req: UpdateRequest)
    requires Serves(repo, users, now, freshId)
    requires Consistent(users) && k < |users| && !IsZero(users[k])
    ensures var s := UpdateUser(repo, Hex(users[k].id), req);
      && s.calls == [GetUserByIdCall(Hex(users[k].id)), UpdateUserCall(Edited(users, k, req))]
      && Commit(users, s.calls, now, freshId) == Overwrite(users, Edited(users, k, req), now).users
  {
    LookupByIdFinds(users, k);
    StoreUpdate(repo, users, now, freshId, Hex(users[k].id), users[k], req);
  }

  /**
   * Changing a stored user's email to one another user holds fails with a
   * conflict and leaves the table as it was.
   */
  lemma UpdateEmailTaken(repo: Repository, users: seq<User>, now: Time, freshId: ObjectId, k: nat, j: nat,
                         req: UpdateRequest)
    requires Serves(repo, users, now, freshId)
    requires Consistent(users) && k < |users| && j < |users| && j != k
    requires !IsZero(users[k]) && users[j].email == req.email
    ensures var s := UpdateUser(repo, Hex(users[k].id), req);
      s.result == Fail(AlreadyExists(req.email)) && Commit(users, s.calls, now, freshId) == users
  {
    var u := Edited(users, k, req);
    OverwriteConsistent(users, u, now);
    assert Overwrite(users, u, now).reply.Fail?;
    LookupByIdFinds(users, k);
    StoreUpdate(repo, users, now, freshId, Hex(users[k].id), users[k], req);
  }

  /**
   * Changing a stored user's name and email to a (non-empty, as the
   * validator demands) email nobody else holds succeeds and keeps the table
   * consistent, and `GetUserByID` against the new table returns the new name
   * and email.
   */
  lemma UpdateThenGet(repo: Repository, next: Repository, users: seq<User>, now: Time, freshId: ObjectId, k: nat,
                      req: UpdateRequest, later: Time)
    requires Serves(repo, users, now, freshId)
    requires Consistent(users) && k < |users| && !IsZero(users[k])
    requires req.email != ""
    requires forall j :: 0 <= j < |users| && j != k ==> users[j].email != req.email
    requires Serves(next, Commit(users, UpdateUser(repo, Hex(users[k].id), req).calls, now, freshId), later, freshId)
    ensures var id := Hex(users[k].id);
      var s := UpdateUser(repo, id, req);
      && s.result == Ok(UpdateResponse(id, req.name, req.email))
      && Consistent(Commit(users, s.calls, now, freshId))
      && GetUserByID(next, id).result == Ok(GetMeResponse(id, req.name, req.email))
  {
    var u := Edited(users, k, req);
    var w := Overwrite(users, u, now);
    OverwriteConsistent(users, u, now);
    assert w.reply.Ok?;
    assert w.users[k] == Overwritten(users[k], u, now);
    LookupByIdFinds(users, k);
    StoreUpdate(repo, users, now, freshId, Hex(users[k].id), users[k], req);
    assert w.users[k].email != "";
    GetStored(next, w.users, later, freshId, k);
  }
}
